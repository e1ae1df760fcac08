/** xtkernel/rwlock.c: each spinlock section is one atomic step of some thread. */
module RwLock {
  import opened Bits

  /** Where a thread is: outside, asleep in a queue, woken but not yet back in its loop, or holding the lock. */
  datatype Phase = Idle | QueuedR | WokenR | QueuedW | WokenW | Reading | Writing

  /** The lock, and the phase of every thread that uses it. */
  datatype Lock = Lock(readers: int, waitReaders: seq<nat>, waitWriters: seq<nat>, phase: map<nat, Phase>)

  function Holding(s: Lock, p: Phase): set<nat> {
    set t | t in s.phase && s.phase[t] == p
  }

  ghost predicate Distinct(q: seq<nat>) {
    forall i, j :: 0 <= i < j < |q| ==> q[i] != q[j]
  }

  /** A queue holds exactly the threads of its phase, each once. */
  ghost predicate QueueOk(s: Lock, q: seq<nat>, p: Phase) {
    Distinct(q) && forall t :: t in q <==> t in s.phase && s.phase[t] == p
  }

  /** The counter is -1 for one writer and no readers, and otherwise counts the readers. */
  ghost predicate CounterOk(s: Lock) {
    if s.readers == -1 then |Holding(s, Writing)| == 1 && Holding(s, Reading) == {}
    else s.readers == |Holding(s, Reading)| && Holding(s, Writing) == {}
  }

  /** Someone will wake every sleeper: a queued writer has a holder or a woken writer before it, a queued reader
      has a writer that holds, waits or has been woken. */
  ghost predicate NobodyStranded(s: Lock) {
    && (s.waitWriters != [] ==> s.readers != 0 || Holding(s, WokenW) != {})
    && (s.waitReaders != [] ==> s.readers == -1 || s.waitWriters != [] || Holding(s, WokenW) != {})
  }

  ghost predicate Inv(s: Lock) {
    QueueOk(s, s.waitReaders, QueuedR) && QueueOk(s, s.waitWriters, QueuedW) && CounterOk(s) && NobodyStranded(s)
  }

  // ----- The steps -----

  datatype Action = AcquireRead | ReleaseRead | AcquireWrite | ReleaseWrite

  predicate Enabled(s: Lock, t: nat, a: Action) {
    t in s.phase && match a
      case AcquireRead => s.phase[t] == Idle || s.phase[t] == WokenR
      case AcquireWrite => s.phase[t] == Idle || s.phase[t] == WokenW
      case ReleaseRead => s.phase[t] == Reading
      case ReleaseWrite => s.phase[t] == Writing
  }

  /** rwWakeOne on the writers' queue. */
  function WakeWriter(s: Lock): Lock {
    if s.waitWriters == [] then s
    else s.(waitWriters := s.waitWriters[1..], phase := s.phase[s.waitWriters[0] := WokenW])
  }

  /** rwWakeAll on the readers' queue. */
  function WakeReaders(s: Lock): Lock {
    s.(waitReaders := [], phase := map t | t in s.phase :: if t in s.waitReaders then WokenR else s.phase[t])
  }

  function Next(s: Lock, t: nat, a: Action): Lock
    requires Enabled(s, t, a)
  {
    match a
    case AcquireRead =>
      if s.readers == -1 || s.waitWriters != [] then
        s.(waitReaders := s.waitReaders + [t], phase := s.phase[t := QueuedR])
      else s.(readers := s.readers + 1, phase := s.phase[t := Reading])
    case ReleaseRead =>
      var u := s.(readers := s.readers - 1, phase := s.phase[t := Idle]);
      if u.readers == 0 then WakeWriter(u) else u
    case AcquireWrite =>
      if s.readers != 0 then s.(waitWriters := s.waitWriters + [t], phase := s.phase[t := QueuedW])
      else s.(readers := -1, phase := s.phase[t := Writing])
    case ReleaseWrite =>
      var u := s.(readers := 0, phase := s.phase[t := Idle]);
      if u.waitWriters != [] then WakeWriter(u) else WakeReaders(u)
  }

  // ----- What every step keeps -----

  lemma Moved(s: Lock, s': Lock, t: nat, p: Phase)
    requires t in s.phase && s'.phase == s.phase[t := p]
    ensures forall r :: Holding(s', r) == if r == p then Holding(s, r) + {t} else Holding(s, r) - {t}
  {
    forall r ensures Holding(s', r) == if r == p then Holding(s, r) + {t} else Holding(s, r) - {t} {}
  }

  lemma Enqueue(s: Lock, s': Lock, t: nat, q: seq<nat>, p: Phase)
    requires QueueOk(s, q, p) && t in s.phase && s.phase[t] != p && s'.phase == s.phase[t := p]
    ensures QueueOk(s', q + [t], p)
  {
    assert forall u :: u in q + [t] <==> u in q || u == t;
  }

  lemma Dequeue(s: Lock, s': Lock, q: seq<nat>, p: Phase, r: Phase)
    requires QueueOk(s, q, p) && q != [] && r != p && s'.phase == s.phase[q[0] := r]
    ensures QueueOk(s', q[1..], p)
  {
    forall t ensures t in q[1..] <==> t in s'.phase && s'.phase[t] == p {
      if t in q[1..] {
        var i :| 0 <= i < |q[1..]| && q[1..][i] == t;
        assert q[i + 1] == t && q[0] != t;
      }
      assert t in q && t != q[0] ==> t in q[1..];
    }
  }

  lemma OtherQueue(s: Lock, s': Lock, t: nat, q: seq<nat>, p: Phase)
    requires QueueOk(s, q, p) && t in s.phase && s.phase[t] != p && s'.phase.Keys == s.phase.Keys
    requires s'.phase[t] != p && forall u :: u in s.phase && u != t ==> s'.phase[u] == s.phase[u]
    ensures QueueOk(s', q, p)
  {}

  lemma AcquireReadKeeps(s: Lock, t: nat)
    requires Inv(s) && Enabled(s, t, AcquireRead)
    ensures Inv(Next(s, t, AcquireRead))
  {
    hide Holding, QueueOk, CounterOk, NobodyStranded;
    var s' := Next(s, t, AcquireRead);
    NotHolding(s, t);
    if s.readers == -1 || s.waitWriters != [] {
      Moved(s, s', t, QueuedR);
      Enqueue(s, s', t, s.waitReaders, QueuedR);
    } else {
      Moved(s, s', t, Reading);
      OtherQueue(s, s', t, s.waitReaders, QueuedR);
    }
    OtherQueue(s, s', t, s.waitWriters, QueuedW);
    ReadCounts(s, t);
  }

  lemma ReadCounts(s: Lock, t: nat)
    requires CounterOk(s) && NobodyStranded(s) && Enabled(s, t, AcquireRead)
    ensures CounterOk(Next(s, t, AcquireRead)) && NobodyStranded(Next(s, t, AcquireRead))
  {
    hide Holding;
    var s' := Next(s, t, AcquireRead);
    NotHolding(s, t);
    Moved(s, s', t, s'.phase[t]);
  }

  lemma NotHolding(s: Lock, t: nat)
    requires t in s.phase
    ensures forall p :: t in Holding(s, p) <==> s.phase[t] == p
  {}

  lemma AcquireWriteKeeps(s: Lock, t: nat)
    requires Inv(s) && Enabled(s, t, AcquireWrite)
    ensures Inv(Next(s, t, AcquireWrite))
  {
    hide Holding, QueueOk;
    var s' := Next(s, t, AcquireWrite);
    NotHolding(s, t);
    if s.readers != 0 {
      Moved(s, s', t, QueuedW);
      Enqueue(s, s', t, s.waitWriters, QueuedW);
    } else {
      Moved(s, s', t, Writing);
      OtherQueue(s, s', t, s.waitWriters, QueuedW);
    }
    OtherQueue(s, s', t, s.waitReaders, QueuedR);
  }

  /** Everything but the promise of a wake-up, which the release is about to give. */
  ghost predicate Unlocked(s: Lock) {
    QueueOk(s, s.waitReaders, QueuedR) && QueueOk(s, s.waitWriters, QueuedW) && CounterOk(s)
  }

  lemma WakeWriterKeeps(s: Lock)
    requires Unlocked(s) && s.waitWriters != []
    ensures Inv(WakeWriter(s))
  {
    var w := s.waitWriters[0];
    assert w in s.waitWriters;
    assert s.phase[w] == QueuedW;
    hide Holding, QueueOk;
    var s' := WakeWriter(s);
    NotHolding(s, w);
    Moved(s, s', w, WokenW);
    Dequeue(s, s', s.waitWriters, QueuedW, WokenW);
    OtherQueue(s, s', w, s.waitReaders, QueuedR);
  }

  lemma WakeReadersKeeps(s: Lock)
    requires Unlocked(s) && s.waitWriters == []
    ensures Inv(WakeReaders(s))
  {
    var s' := WakeReaders(s);
    assert Holding(s', Reading) == Holding(s, Reading) && Holding(s', Writing) == Holding(s, Writing);
  }

  lemma ReleaseReadKeeps(s: Lock, t: nat)
    requires Inv(s) && Enabled(s, t, ReleaseRead)
    ensures Inv(Next(s, t, ReleaseRead))
  {
    hide Holding, QueueOk;
    var u := s.(readers := s.readers - 1, phase := s.phase[t := Idle]);
    NotHolding(s, t);
    Moved(s, u, t, Idle);
    OtherQueue(s, u, t, s.waitReaders, QueuedR);
    OtherQueue(s, u, t, s.waitWriters, QueuedW);
    assert CounterOk(u);
    if u.readers == 0 && u.waitWriters != [] { WakeWriterKeeps(u); }
  }

  lemma ReleaseWriteKeeps(s: Lock, t: nat)
    requires Inv(s) && Enabled(s, t, ReleaseWrite)
    ensures Inv(Next(s, t, ReleaseWrite))
  {
    hide Holding, QueueOk;
    var u := s.(readers := 0, phase := s.phase[t := Idle]);
    NotHolding(s, t);
    Moved(s, u, t, Idle);
    OnlyMember(Holding(s, Writing), t);
    OtherQueue(s, u, t, s.waitReaders, QueuedR);
    OtherQueue(s, u, t, s.waitWriters, QueuedW);
    if u.waitWriters != [] { WakeWriterKeeps(u); } else { WakeReadersKeeps(u); }
  }

  lemma OnlyMember(x: set<nat>, t: nat)
    requires |x| == 1 && t in x
    ensures x == {t}
  {
    assert |x - {t}| == 0;
  }

  lemma StepKeeps(s: Lock, t: nat, a: Action)
    requires Inv(s) && Enabled(s, t, a)
    ensures Inv(Next(s, t, a))
  {
    match a {
      case AcquireRead => AcquireReadKeeps(s, t);
      case ReleaseRead => ReleaseReadKeeps(s, t);
      case AcquireWrite => AcquireWriteKeeps(s, t);
      case ReleaseWrite => ReleaseWriteKeeps(s, t);
    }
  }

  // ----- Every interleaving of any number of threads -----

  datatype Event = Event(thread: nat, action: Action)

  ghost predicate Run(s: Lock, events: seq<Event>)
    decreases |events|
  {
    events == [] || (Enabled(s, events[0].thread, events[0].action)
                     && Run(Next(s, events[0].thread, events[0].action), events[1..]))
  }

  ghost function AfterRun(s: Lock, events: seq<Event>): Lock
    requires Run(s, events)
    decreases |events|
  {
    if events == [] then s else AfterRun(Next(s, events[0].thread, events[0].action), events[1..])
  }

  lemma {:induction false} AlwaysInv(s: Lock, events: seq<Event>)
    requires Inv(s) && Run(s, events)
    ensures Inv(AfterRun(s, events))
    decreases |events|
  {
    if events != [] {
      StepKeeps(s, events[0].thread, events[0].action);
      hide Inv, Next;
      AlwaysInv(Next(s, events[0].thread, events[0].action), events[1..]);
    }
  }

  function Initial(threads: set<nat>): Lock {
    Lock(0, [], [], map t | t in threads :: Idle)
  }

  /** From the initialized lock, whatever the threads do: a writer is alone, readers are counted, nobody is stranded. */
  lemma SafeAlways(threads: set<nat>, events: seq<Event>)
    requires Run(Initial(threads), events)
    ensures Inv(AfterRun(Initial(threads), events))
    ensures Exclusive(AfterRun(Initial(threads), events))
    ensures CanMove(AfterRun(Initial(threads), events))
  {
    var s0 := Initial(threads);
    assert Holding(s0, Reading) == {} && Holding(s0, Writing) == {};
    AlwaysInv(s0, events);
    InvExclusive(AfterRun(s0, events));
    InvCanMove(AfterRun(s0, events));
  }

  /** At most one thread writes, and then none reads. */
  ghost predicate Exclusive(s: Lock) {
    forall t, u :: t in Holding(s, Writing) && (u in Holding(s, Writing) || u in Holding(s, Reading)) ==> t == u
  }

  /** While anyone sleeps, some thread that is awake and not idle has a step to take. */
  ghost predicate CanMove(s: Lock) {
    s.waitReaders != [] || s.waitWriters != [] ==>
      exists t :: t in s.phase && (s.phase[t] == Reading || s.phase[t] == Writing || s.phase[t] == WokenW)
  }

  lemma InvExclusive(s: Lock)
    requires Inv(s)
    ensures Exclusive(s)
  {
    hide Holding;
    if t :| t in Holding(s, Writing) { OnlyMember(Holding(s, Writing), t); }
  }

  lemma InvCanMove(s: Lock)
    requires Inv(s)
    ensures CanMove(s)
  {
    if s.waitReaders != [] || s.waitWriters != [] {
      if Holding(s, WokenW) != {} {
        var t :| t in Holding(s, WokenW);
      } else if s.readers == -1 {
        var t :| t in Holding(s, Writing);
      } else {
        assert Holding(s, Reading) != {};
        var t :| t in Holding(s, Reading);
      }
    }
  }

  // ----- Every waiting thread can still be served -----

  /** Some continuation of the run leads from s to r. */
  ghost predicate Leads(s: Lock, r: Lock) {
    exists events :: Run(s, events) && AfterRun(s, events) == r
  }

  lemma LeadsToSelf(s: Lock)
    ensures Leads(s, s)
  {
    assert Run(s, []) && AfterRun(s, []) == s;
  }

  lemma LeadsFirst(s: Lock, t: nat, a: Action, r: Lock)
    requires Enabled(s, t, a) && Leads(Next(s, t, a), r)
    ensures Leads(s, r)
  {
    var rest :| Run(Next(s, t, a), rest) && AfterRun(Next(s, t, a), rest) == r;
    var events := [Event(t, a)] + rest;
    assert events[1..] == rest;
    assert Run(s, events) && AfterRun(s, events) == r;
  }

  lemma {:induction false} LeadsAlong(s: Lock, events: seq<Event>, q: Lock, r: Lock)
    requires Run(s, events) && AfterRun(s, events) == q && Leads(q, r)
    ensures Leads(s, r)
    decreases |events|
  {
    if events != [] {
      LeadsAlong(Next(s, events[0].thread, events[0].action), events[1..], q, r);
      LeadsFirst(s, events[0].thread, events[0].action, r);
    }
  }

  lemma LeadsTransitive(s: Lock, q: Lock, r: Lock)
    requires Leads(s, q) && Leads(q, r)
    ensures Leads(s, r)
  {
    var events :| Run(s, events) && AfterRun(s, events) == q;
    LeadsAlong(s, events, q, r);
  }

  /** Waiting threads keep waiting or have been woken. */
  ghost predicate KeepsWaiting(s: Lock, r: Lock) {
    && s.phase.Keys == r.phase.Keys
    && forall t :: t in s.phase ==>
         && (s.phase[t] == WokenR ==> r.phase[t] == WokenR)
         && (s.phase[t] == QueuedR ==> r.phase[t] == QueuedR || r.phase[t] == WokenR)
         && (s.phase[t] == QueuedW ==> r.phase[t] == QueuedW || r.phase[t] == WokenW)
  }

  ghost predicate KeepsWokenWriters(s: Lock, r: Lock)
    requires s.phase.Keys == r.phase.Keys
  {
    forall t :: t in s.phase && s.phase[t] == WokenW ==> r.phase[t] == WokenW
  }

  /** The holders can release until nobody holds the lock. */
  lemma {:induction false} ToZero(s: Lock) returns (r: Lock)
    requires Inv(s)
    ensures Inv(r) && Leads(s, r) && r.readers == 0 && |r.waitWriters| <= |s.waitWriters|
    ensures KeepsWaiting(s, r) && KeepsWokenWriters(s, r)
    decreases if s.readers == -1 then 1 else s.readers
  {
    if s.readers == 0 {
      LeadsToSelf(s);
      return s;
    }
    var p := if s.readers == -1 then Writing else Reading;
    assert Holding(s, p) != {};
    var t :| t in Holding(s, p);
    var a := if s.readers == -1 then ReleaseWrite else ReleaseRead;
    var next := Next(s, t, a);
    StepKeeps(s, t, a);
    ReleaseKeepsWaiting(s, t, a);
    hide Inv, Next;
    if next.readers == 0 {
      LeadsToSelf(next);
      r := next;
    } else {
      r := ToZero(next);
    }
    LeadsFirst(s, t, a, r);
  }

  lemma ReleaseKeepsWaiting(s: Lock, t: nat, a: Action)
    requires Inv(s) && Enabled(s, t, a) && (a == ReleaseRead || a == ReleaseWrite)
    ensures var r := Next(s, t, a);
      && KeepsWaiting(s, r) && KeepsWokenWriters(s, r) && |r.waitWriters| <= |s.waitWriters|
      && r.readers == if a == ReleaseWrite then 0 else s.readers - 1
  {
    assert s.waitWriters != [] ==> s.waitWriters[0] in s.waitWriters;
  }

  /** A free lock with writers queued passes through a woken writer, which wakes the first of the queue. */
  lemma PopWriter(s: Lock) returns (r: Lock)
    requires Inv(s) && s.readers == 0 && s.waitWriters != []
    ensures Inv(r) && Leads(s, r) && r.readers == 0 && r.waitWriters == s.waitWriters[1..] && KeepsWaiting(s, r)
  {
    var u :| u in Holding(s, WokenW);
    var q := Next(s, u, AcquireWrite);
    StepKeeps(s, u, AcquireWrite);
    r := Next(q, u, ReleaseWrite);
    StepKeeps(q, u, ReleaseWrite);
    PopKeeps(s, u);
    hide Inv, Next, KeepsWaiting;
    LeadsToSelf(r);
    LeadsFirst(q, u, ReleaseWrite, r);
    LeadsFirst(s, u, AcquireWrite, r);
  }

  lemma PopKeeps(s: Lock, u: nat)
    requires QueueOk(s, s.waitWriters, QueuedW) && s.readers == 0 && s.waitWriters != []
    requires u in s.phase && s.phase[u] == WokenW
    ensures var r := Next(Next(s, u, AcquireWrite), u, ReleaseWrite);
      r.readers == 0 && r.waitWriters == s.waitWriters[1..] && KeepsWaiting(s, r)
  {
    assert s.waitWriters[0] in s.waitWriters;
  }

  /** A writer that waits or was woken can come to hold the lock. */
  lemma {:induction false} ServeWriter(s: Lock, t: nat) returns (r: Lock)
    requires Inv(s) && t in s.phase && (s.phase[t] == QueuedW || s.phase[t] == WokenW)
    ensures Leads(s, r) && t in Holding(r, Writing)
    decreases |s.waitWriters|, if s.readers == 0 then 0 else 1
  {
    if s.readers != 0 {
      var q := ToZero(s);
      r := ServeWriter(q, t);
      LeadsTransitive(s, q, r);
    } else if s.phase[t] == WokenW {
      r := Next(s, t, AcquireWrite);
      LeadsToSelf(r);
      LeadsFirst(s, t, AcquireWrite, r);
    } else {
      assert t in s.waitWriters;
      var q := PopWriter(s);
      r := ServeWriter(q, t);
      LeadsTransitive(s, q, r);
    }
  }

  /** A reader that waits or was woken can come to hold the lock. */
  lemma {:induction false} ServeReader(s: Lock, t: nat) returns (r: Lock)
    requires Inv(s) && t in s.phase && (s.phase[t] == QueuedR || s.phase[t] == WokenR)
    ensures Leads(s, r) && t in Holding(r, Reading)
    decreases |s.waitWriters|, if s.readers == 0 then 0 else 1
  {
    if s.readers != 0 {
      var q := ToZero(s);
      r := ServeReader(q, t);
      LeadsTransitive(s, q, r);
    } else if s.waitWriters != [] {
      var q := PopWriter(s);
      r := ServeReader(q, t);
      LeadsTransitive(s, q, r);
    } else if s.phase[t] == WokenR {
      r := Next(s, t, AcquireRead);
      LeadsToSelf(r);
      LeadsFirst(s, t, AcquireRead, r);
    } else {
      r := ThroughWriter(s, t);
    }
  }

  /** The last queued step: a woken writer takes and releases the lock, which wakes all readers. */
  lemma ThroughWriter(s: Lock, t: nat) returns (r: Lock)
    requires Inv(s) && s.readers == 0 && s.waitWriters == [] && t in s.phase && s.phase[t] == QueuedR
    ensures Leads(s, r) && t in Holding(r, Reading)
  {
    assert t in s.waitReaders;
    var u :| u in Holding(s, WokenW);
    var q := Next(s, u, AcquireWrite);
    var p := Next(q, u, ReleaseWrite);
    r := Next(p, t, AcquireRead);
    LeadsToSelf(r);
    LeadsFirst(p, t, AcquireRead, r);
    LeadsFirst(q, u, ReleaseWrite, r);
    LeadsFirst(s, u, AcquireWrite, r);
  }

  /** No sleeper is stranded: in every reachable state each waiting thread still has a run that lets it in. */
  lemma NoStrandedSleeper(threads: set<nat>, events: seq<Event>, t: nat)
    requires Run(Initial(threads), events)
    requires var s := AfterRun(Initial(threads), events);
      t in s.waitReaders || t in s.waitWriters
    ensures var s := AfterRun(Initial(threads), events);
      exists r :: Leads(s, r) && (t in Holding(r, Reading) || t in Holding(r, Writing))
  {
    SafeAlways(threads, events);
    var s := AfterRun(Initial(threads), events);
    if t in s.waitReaders {
      var r := ServeReader(s, t);
    } else {
      var r := ServeWriter(s, t);
    }
  }

  // ----- Writers are woken in the order in which they were refused -----

  /** The writer that a step refuses, and the one that it wakes. */
  ghost function RefusedBy(s: Lock, e: Event): seq<nat>
    requires Enabled(s, e.thread, e.action)
  {
    var r := Next(s, e.thread, e.action);
    if e.thread in r.phase && r.phase[e.thread] == QueuedW then [e.thread] else []
  }

  ghost function WokenBy(s: Lock, e: Event): seq<nat>
    requires Enabled(s, e.thread, e.action)
  {
    var r := Next(s, e.thread, e.action);
    if exists w :: Wakes(s, r, w) then var w :| Wakes(s, r, w); [w] else []
  }

  predicate Wakes(s: Lock, r: Lock, w: nat) {
    w in s.phase && w in r.phase && s.phase[w] == QueuedW && r.phase[w] == WokenW
  }

  ghost function RefusedWriters(s: Lock, events: seq<Event>): seq<nat>
    requires Run(s, events)
    decreases |events|
  {
    if events == [] then []
    else RefusedBy(s, events[0]) + RefusedWriters(Next(s, events[0].thread, events[0].action), events[1..])
  }

  ghost function WokenWriters(s: Lock, events: seq<Event>): seq<nat>
    requires Run(s, events)
    decreases |events|
  {
    if events == [] then []
    else WokenBy(s, events[0]) + WokenWriters(Next(s, events[0].thread, events[0].action), events[1..])
  }

  /** The writers' queue is first in, first out over every run. */
  lemma {:induction false} FirstRefusedFirstWoken(s: Lock, events: seq<Event>)
    requires Inv(s) && Run(s, events)
    ensures s.waitWriters + RefusedWriters(s, events) == WokenWriters(s, events) + AfterRun(s, events).waitWriters
    decreases |events|
  {
    if events != [] {
      var r := Next(s, events[0].thread, events[0].action);
      StepKeeps(s, events[0].thread, events[0].action);
      QueueStep(s, events[0]);
      hide Inv, Next, RefusedBy, WokenBy, Enabled;
      FirstRefusedFirstWoken(r, events[1..]);
      Shift(s.waitWriters, RefusedBy(s, events[0]), RefusedWriters(r, events[1..]),
            WokenBy(s, events[0]), r.waitWriters, WokenWriters(r, events[1..]), AfterRun(r, events[1..]).waitWriters);
    }
  }

  lemma Shift(q: seq<nat>, a: seq<nat>, c: seq<nat>, b: seq<nat>, r: seq<nat>, d: seq<nat>, e: seq<nat>)
    requires q + a == b + r && r + c == d + e
    ensures q + (a + c) == (b + d) + e
  {
    assert q + (a + c) == (q + a) + c == (b + r) + c == b + (r + c) == b + (d + e) == (b + d) + e;
  }

  lemma QueueStep(s: Lock, e: Event)
    requires Inv(s) && Enabled(s, e.thread, e.action)
    ensures s.waitWriters + RefusedBy(s, e) == WokenBy(s, e) + Next(s, e.thread, e.action).waitWriters
  {
    var r := Next(s, e.thread, e.action);
    assert s.waitWriters != [] ==> s.waitWriters[0] in s.waitWriters;
    if |r.waitWriters| < |s.waitWriters| { assert Wakes(s, r, s.waitWriters[0]); }
  }

  // ----- The implementation -----

  const XT_THREAD_RUN_STATE: nat := 1
  const XT_THREAD_WAIT_STATE: nat := 4

  /** `(state & 0x80) | s` */
  function WithState(state: nat, s: nat): nat {
    Or(And(state, 0x80), s)
  }

  predicate Asleep(p: Phase) { p == QueuedR || p == QueuedW }

  /** The user bit of a state byte survives, and the rest is the new state. */
  lemma WithStateIs(state: nat, s: nat)
    requires state < 256 && s < 128
    ensures WithState(state, s) == state / 128 * 128 + s
  {
    assert Pow2(7) == 128 by { Powers(); }
    assert And(state, 0x80) == state / 128 * 128 by {
      hide And, Shr, Low, Pow2;
      AndHigh(state, 1, 7);
      DivideBy(state, 7, 128);
      BitOfByte(state / 128);
    }
    hide And, Or, Pow2;
    OrJoin(state / 128, s, 7);
  }

  lemma BitOfByte(x: nat)
    requires x < 2
    ensures And(x, 1) == x
  {}

  class XTRWLock {
    var readers: int
    var waitReaders: seq<nat>
    var waitWriters: seq<nat>
    var state: map<nat, nat>
    ghost var phase: map<nat, Phase>

    ghost function View(): Lock
      reads this
    {
      Lock(readers, waitReaders, waitWriters, phase)
    }

    ghost predicate Valid()
      reads this
    {
      Inv(View()) && BytesOk(state, phase)
    }

    constructor (threads: set<nat>, bytes: map<nat, nat>)
      requires bytes.Keys == threads && forall t :: t in threads ==> bytes[t] == 1 || bytes[t] == 129
      ensures Valid() && View() == Initial(threads)
    {
      readers, waitReaders, waitWriters, state := 0, [], [], bytes;
      phase := map t | t in threads :: Idle;
      new;
      assert Holding(View(), Reading) == {} && Holding(View(), Writing) == {};
    }

    /** One pass of the loop of xtAcquireRead: true when the lock was taken, false when the thread went to sleep. */
    method AcquireRead(t: nat) returns (acquired: bool)
      requires Valid() && Enabled(View(), t, Action.AcquireRead)
      modifies this
      ensures Valid() && View() == Next(old(View()), t, Action.AcquireRead) && UserBitsKept(old(state), state)
      ensures acquired <==> old(readers != -1 && waitWriters == [])
      ensures waitWriters == old(waitWriters)
      ensures acquired ==> readers == old(readers) + 1 && waitReaders == old(waitReaders) && state == old(state)
      ensures !acquired ==> readers == old(readers) && waitReaders == old(waitReaders) + [t] && t in old(state)
      ensures !acquired ==> state == old(state)[t := old(state)[t] / 128 * 128 + 4]
    {
      hide Inv, WithState, BytesOk, UserBitsKept;
      StepKeeps(View(), t, Action.AcquireRead);
      if readers == -1 || waitWriters != [] {
        SetByte(state, phase, t, QueuedR);
        waitReaders := waitReaders + [t];
        state := state[t := WithState(state[t], XT_THREAD_WAIT_STATE)];
        phase := phase[t := QueuedR];
        return false;
      }
      SameByte(state, phase, t, Reading);
      readers := readers + 1;
      phase := phase[t := Reading];
      return true;
    }

    method ReleaseRead(t: nat)
      requires Valid() && Enabled(View(), t, Action.ReleaseRead)
      modifies this
      ensures Valid() && View() == Next(old(View()), t, Action.ReleaseRead) && UserBitsKept(old(state), state)
      ensures readers == old(readers) - 1 >= 0 && waitReaders == old(waitReaders)
      ensures old(readers) != 1 || old(waitWriters) == [] ==> waitWriters == old(waitWriters) && state == old(state)
      ensures old(readers) == 1 && old(waitWriters) != [] ==> FirstWoken(old(waitWriters), old(state), waitWriters, state)
    {
      hide Inv, WithState, BytesOk, UserBitsKept;
      StepKeeps(View(), t, Action.ReleaseRead);
      WritersKnown(View());
      ReaderCounted(View(), t);
      SameByte(state, phase, t, Idle);
      readers := readers - 1;
      phase := phase[t := Idle];
      if readers == 0 { WakeOneWriter(); }
    }

    /** One pass of the loop of xtAcquireWrite. */
    method AcquireWrite(t: nat) returns (acquired: bool)
      requires Valid() && Enabled(View(), t, Action.AcquireWrite)
      modifies this
      ensures Valid() && View() == Next(old(View()), t, Action.AcquireWrite) && UserBitsKept(old(state), state)
      ensures acquired <==> old(readers == 0)
      ensures waitReaders == old(waitReaders)
      ensures acquired ==> readers == -1 && waitWriters == old(waitWriters) && state == old(state)
      ensures !acquired ==> readers == old(readers) && waitWriters == old(waitWriters) + [t] && t in old(state)
      ensures !acquired ==> state == old(state)[t := old(state)[t] / 128 * 128 + 4]
    {
      hide Inv, WithState, BytesOk, UserBitsKept;
      StepKeeps(View(), t, Action.AcquireWrite);
      if readers != 0 {
        SetByte(state, phase, t, QueuedW);
        waitWriters := waitWriters + [t];
        state := state[t := WithState(state[t], XT_THREAD_WAIT_STATE)];
        phase := phase[t := QueuedW];
        return false;
      }
      SameByte(state, phase, t, Writing);
      readers := -1;
      phase := phase[t := Writing];
      return true;
    }

    method ReleaseWrite(t: nat)
      requires Valid() && Enabled(View(), t, Action.ReleaseWrite)
      modifies this
      ensures Valid() && View() == Next(old(View()), t, Action.ReleaseWrite) && UserBitsKept(old(state), state)
      ensures readers == 0
      ensures old(waitWriters) != [] ==>
        FirstWoken(old(waitWriters), old(state), waitWriters, state) && waitReaders == old(waitReaders)
      ensures old(waitWriters) == [] ==>
        AllWoken(old(waitReaders), old(state), waitReaders, state) && waitWriters == []
    {
      hide Inv, WithState, BytesOk, UserBitsKept;
      StepKeeps(View(), t, Action.ReleaseWrite);
      WritersKnown(View());
      SameByte(state, phase, t, Idle);
      readers := 0;
      phase := phase[t := Idle];
      if waitWriters != [] { WakeOneWriter(); } else { WakeAllReaders(); }
    }

    /** rwWakeOne(&lock->waitWriters) */
    method WakeOneWriter()
      requires BytesOk(state, phase) && (waitWriters != [] ==> waitWriters[0] in phase)
      modifies this
      ensures View() == WakeWriter(old(View())) && BytesOk(state, phase) && UserBitsKept(old(state), state)
      ensures old(waitWriters) == [] ==> state == old(state)
      ensures old(waitWriters) != [] ==> FirstWoken(old(waitWriters), old(state), waitWriters, state)
    {
      hide WithState, BytesOk, UserBitsKept;
      if waitWriters == [] {
        SameBytes(state);
        return;
      }
      var t := waitWriters[0];
      SetByte(state, phase, t, WokenW);
      state := state[t := WithState(state[t], XT_THREAD_RUN_STATE)];
      phase := phase[t := WokenW];
      waitWriters := waitWriters[1..];
    }

    /** rwWakeAll(&lock->waitReaders) */
    method WakeAllReaders()
      requires BytesOk(state, phase) && forall t :: t in waitReaders ==> t in phase
      modifies this
      ensures View() == WakeReaders(old(View())) && BytesOk(state, phase) && UserBitsKept(old(state), state)
      ensures AllWoken(old(waitReaders), old(state), waitReaders, state)
    {
      hide WithState, BytesOk, UserBitsKept;
      var i := 0;
      SameBytes(state);
      while i < |waitReaders|
        invariant i <= |waitReaders| && waitReaders == old(waitReaders) && waitWriters == old(waitWriters)
        invariant readers == old(readers) && phase.Keys == old(phase.Keys)
        invariant forall j :: 0 <= j < i ==> phase[waitReaders[j]] == WokenR
        invariant forall t :: t in phase ==> phase[t] == old(phase)[t] || (t in waitReaders && phase[t] == WokenR)
        invariant BytesOk(state, phase) && UserBitsKept(old(state), state) && state.Keys == old(state.Keys)
        invariant SomeWoken(waitReaders[..i], old(state), state)
      {
        var t := waitReaders[i];
        SetByte(state, phase, t, WokenR);
        WokenToo(waitReaders, i, old(state), state);
        UserBitsTwice(old(state), state, state[t := WithState(state[t], XT_THREAD_RUN_STATE)]);
        state := state[t := WithState(state[t], XT_THREAD_RUN_STATE)];
        phase := phase[t := WokenR];
        i := i + 1;
      }
      assert waitReaders[..i] == waitReaders;
      waitReaders := [];
    }
  }

  /** The first of the queue gets state 1 and leaves the queue; all other bytes stay. */
  ghost predicate FirstWoken(queue: seq<nat>, state: map<nat, nat>, queue': seq<nat>, state': map<nat, nat>) {
    && queue != [] && queue' == queue[1..] && queue[0] in state
    && state' == state[queue[0] := state[queue[0]] / 128 * 128 + 1]
  }

  /** All of the queue get state 1 and leave it; all other bytes stay. */
  ghost predicate AllWoken(queue: seq<nat>, state: map<nat, nat>, queue': seq<nat>, state': map<nat, nat>) {
    queue' == [] && SomeWoken(queue, state, state')
  }

  ghost predicate SomeWoken(ts: seq<nat>, state: map<nat, nat>, state': map<nat, nat>) {
    && state'.Keys == state.Keys
    && forall t :: t in state ==> state'[t] == if t in ts then state[t] / 128 * 128 + 1 else state[t]
  }

  lemma WokenToo(queue: seq<nat>, i: nat, before: map<nat, nat>, now: map<nat, nat>)
    requires i < |queue| && queue[i] in before && SomeWoken(queue[..i], before, now) && now[queue[i]] < 256
    ensures SomeWoken(queue[..i + 1], before, now[queue[i] := WithState(now[queue[i]], XT_THREAD_RUN_STATE)])
  {
    hide WithState;
    assert queue[..i + 1] == queue[..i] + [queue[i]];
    WithStateIs(now[queue[i]], XT_THREAD_RUN_STATE);
  }

  /** State bytes: threads in a queue wait, all others run. */
  ghost predicate BytesOk(state: map<nat, nat>, phase: map<nat, Phase>) {
    state.Keys == phase.Keys && forall t :: t in phase ==> state[t] < 256 && state[t] % 128 == StateOf(phase[t])
  }

  ghost predicate UserBitsKept(before: map<nat, nat>, after: map<nat, nat>) {
    after.Keys == before.Keys && forall t :: t in after ==> after[t] / 128 == before[t] / 128
  }

  lemma SetByte(state: map<nat, nat>, phase: map<nat, Phase>, t: nat, p: Phase)
    requires BytesOk(state, phase) && t in phase
    ensures t in state && BytesOk(state[t := WithState(state[t], StateOf(p))], phase[t := p])
    ensures UserBitsKept(state, state[t := WithState(state[t], StateOf(p))])
    ensures StateOf(p) == if Asleep(p) then XT_THREAD_WAIT_STATE else XT_THREAD_RUN_STATE
    ensures WithState(state[t], StateOf(p)) == state[t] / 128 * 128 + StateOf(p) && state[t] < 256
  {
    hide WithState;
    WithStateIs(state[t], StateOf(p));
  }

  /** Taking or releasing the lock does not touch the state byte of a thread that is awake. */
  lemma SameByte(state: map<nat, nat>, phase: map<nat, Phase>, t: nat, p: Phase)
    requires BytesOk(state, phase) && t in phase && !Asleep(phase[t]) && !Asleep(p)
    ensures BytesOk(state, phase[t := p]) && UserBitsKept(state, state)
  {}

  lemma SameBytes(state: map<nat, nat>)
    ensures UserBitsKept(state, state)
  {}

  lemma UserBitsTwice(a: map<nat, nat>, b: map<nat, nat>, c: map<nat, nat>)
    requires UserBitsKept(a, b) && UserBitsKept(b, c)
    ensures UserBitsKept(a, c)
  {}

  function StateOf(p: Phase): nat {
    if Asleep(p) then XT_THREAD_WAIT_STATE else XT_THREAD_RUN_STATE
  }

  lemma ReaderCounted(s: Lock, t: nat)
    requires Inv(s) && t in s.phase && s.phase[t] == Reading
    ensures s.readers >= 1
  {
    assert t in Holding(s, Reading);
  }

  lemma WritersKnown(s: Lock)
    requires Inv(s)
    ensures s.waitWriters != [] ==> s.waitWriters[0] in s.phase
    ensures forall t :: t in s.waitReaders ==> t in s.phase
  {
    assert s.waitWriters != [] ==> s.waitWriters[0] in s.waitWriters;
  }
}
