/** xtkernel/scheduler.c: sleeping threads, time slices and the round-robin search on one processor. */
module Scheduler {
  import opened Bits

  const XT_THREAD_SLEEP_STATE: nat := 0
  const XT_THREAD_RUN_STATE: nat := 1
  const XT_THREAD_WAIT_STATE: nat := 4
  const XT_THREAD_INTERRUPTABLE_STATE: nat := 5

  /** The fields of XTThread that scheduling uses: the state byte, the 64-bit tick counter, the slice length. */
  datatype Thread = Thread(state: nat, ticks: nat, privilege: nat)

  /** `(state & 0xf) == XT_THREAD_RUN_STATE` */
  predicate Runnable(t: Thread) {
    And(t.state, 0xf) == XT_THREAD_RUN_STATE
  }

  lemma RunnableIs(t: Thread)
    ensures Runnable(t) <==> t.state % 16 == 1
  {
    assert Pow2(4) == 16 by { Powers(); }
    hide And, Low, Pow2;
    AndLow(t.state, 4);
    DivideBy(t.state, 4, 16);
  }

  /** `ticks -= 1` on an unsigned 64-bit counter. */
  function MinusOne(ticks: nat): nat {
    if ticks == 0 then TWO_64 - 1 else ticks - 1
  }

  /** One thread's part of xtWakeUpThreads. */
  function Tick(t: Thread): Thread {
    if t.state != XT_THREAD_SLEEP_STATE then t
    else if MinusOne(t.ticks) == 0 then Thread(XT_THREAD_RUN_STATE, t.privilege, t.privilege)
    else t.(ticks := MinusOne(t.ticks))
  }

  /** A sleeper loses a tick, 0 wraps around, and the last tick wakes it with a fresh slice; others stay as they are. */
  ghost predicate OneTick(t: Thread, u: Thread) {
    if t.state != 0 then u == t
    else if t.ticks == 1 then u == Thread(1, t.privilege, t.privilege)
    else u == Thread(0, if t.ticks == 0 then 0xffff_ffff_ffff_ffff else t.ticks - 1, t.privilege)
  }

  function TickAll(ts: seq<Thread>): (r: seq<Thread>)
    ensures |r| == |ts| && forall i :: 0 <= i < |ts| ==> r[i] == Tick(ts[i])
  {
    seq(|ts|, i requires 0 <= i < |ts| => Tick(ts[i]))
  }

  /** The position d places after `from` in the circular list of n threads. */
  function Around(from: nat, d: nat, n: nat): nat
    requires from < n && d <= n
  {
    if from + d < n then from + d else from + d - n
  }

  /** The first runnable thread after `from`, going round: d places on, none runnable in between. */
  ghost predicate FirstRunnable(ts: seq<Thread>, from: nat, d: nat) {
    && from < |ts| && 1 <= d <= |ts| && Runnable(ts[Around(from, d, |ts|)])
    && forall e :: 1 <= e < d ==> !Runnable(ts[Around(from, e, |ts|)])
  }

  datatype State = State(threads: seq<Thread>, current: nat)

  /** The threads after the sleepers have been served and a running current thread has been charged for this tick. */
  function Charged(s: State): (ts: seq<Thread>)
    requires s.current < |s.threads|
    ensures |ts| == |s.threads|
    ensures forall i :: 0 <= i < |ts| && i != s.current ==> ts[i] == Tick(s.threads[i])
  {
    var ts := TickAll(s.threads);
    var c := ts[s.current];
    if Runnable(c) then ts[s.current := c.(ticks := MinusOne(c.ticks))] else ts
  }

  /** The running thread has time left in its slice. */
  predicate GoesOn(s: State)
    requires s.current < |s.threads|
  {
    Runnable(Charged(s)[s.current]) && Charged(s)[s.current].ticks > 0
  }

  /** One call of xtSchedule: the running thread goes on, or the first runnable one after it is chosen. */
  ghost predicate Scheduled(s: State, r: State) {
    && s.current < |s.threads|
    && if GoesOn(s) then r == State(Charged(s), s.current)
       else exists d :: FirstRunnable(Charged(s), s.current, d) && r == Chosen(Charged(s), s.current, d)
  }

  /** The d-th thread after the current one runs next, with a fresh slice. */
  ghost function Chosen(ts: seq<Thread>, current: nat, d: nat): State
    requires current < |ts| && d <= |ts|
  {
    var next := Around(current, d, |ts|);
    State(ts[next := ts[next].(ticks := ts[next].privilege)], next)
  }

  // ----- Waking up -----

  /** The number of calls after which a thread put to sleep for k ticks is due; 0 wraps around. */
  function Due(k: nat): nat {
    if k == 0 then TWO_64 else k
  }

  /** Threads may do anything between two calls except touch thread j. */
  ghost predicate LeavesAlone(s: State, m: State, j: nat) {
    |m.threads| == |s.threads| && m.current < |m.threads| && j < |s.threads| && m.threads[j] == s.threads[j]
  }

  ghost predicate RunFor(run: seq<State>, j: nat) {
    forall i :: 0 <= i < |run| - 1 ==> QuietStepAt(run, i, j)
  }

  ghost predicate QuietStepAt(run: seq<State>, i: nat, j: nat)
    requires i + 1 < |run|
  {
    exists m :: LeavesAlone(run[i], m, j) && Scheduled(m, run[i + 1])
  }

  lemma TickedThread(s: State, r: State, j: nat)
    requires Scheduled(s, r) && j < |s.threads| && Tick(s.threads[j]).state == XT_THREAD_SLEEP_STATE
    ensures |r.threads| == |s.threads| && r.threads[j] == Tick(s.threads[j])
  {
    RunnableIs(Tick(s.threads[j]));
    hide Runnable;
    var ts := Charged(s);
    assert ts[j] == Tick(s.threads[j]);
    if !GoesOn(s) {
      var d :| FirstRunnable(ts, s.current, d) && r == Chosen(ts, s.current, d);
    }
  }

  lemma WokenThread(s: State, r: State, j: nat)
    requires Scheduled(s, r) && j < |s.threads| && Runnable(Tick(s.threads[j]))
    ensures |r.threads| == |s.threads| && Runnable(r.threads[j])
  {
    hide And;
    var ts := Charged(s);
    assert ts[j].state == Tick(s.threads[j]).state;
    if !GoesOn(s) {
      var d :| FirstRunnable(ts, s.current, d) && r == Chosen(ts, s.current, d);
    }
  }

  /** A thread put to sleep for k ticks sleeps through every call before number Due(k) ... */
  lemma {:induction false} SleepsUntilDue(run: seq<State>, j: nat, k: nat, i: nat)
    requires RunFor(run, j) && run != [] && j < |run[0].threads| && k < TWO_64
    requires run[0].threads[j].state == XT_THREAD_SLEEP_STATE && run[0].threads[j].ticks == k
    requires i < Due(k) && i < |run|
    ensures j < |run[i].threads| && run[i].threads[j].state == XT_THREAD_SLEEP_STATE
    ensures run[i].threads[j].ticks == if i == 0 then k else Due(k) - i
    decreases i
  {
    if i > 0 {
      SleepsUntilDue(run, j, k, i - 1);
      var m := QuietStep(run, j, i - 1);
      TickedThread(m, run[i], j);
    }
  }

  /** ... and is runnable after exactly that call. */
  lemma WakesWhenDue(run: seq<State>, j: nat, k: nat)
    requires RunFor(run, j) && run != [] && j < |run[0].threads| && k < TWO_64
    requires run[0].threads[j].state == XT_THREAD_SLEEP_STATE && run[0].threads[j].ticks == k
    requires Due(k) < |run|
    ensures j < |run[Due(k)].threads| && Runnable(run[Due(k)].threads[j])
    ensures forall i :: 0 <= i < Due(k) ==> j < |run[i].threads| && !Runnable(run[i].threads[j])
  {
    hide Runnable, Scheduled, Tick, RunFor;
    var n := Due(k);
    forall i | 0 <= i < n ensures j < |run[i].threads| && !Runnable(run[i].threads[j]) {
      SleepsUntilDue(run, j, k, i);
      RunnableIs(run[i].threads[j]);
    }
    SleepsUntilDue(run, j, k, n - 1);
    LastTick(run, j, n);
  }

  lemma QuietStep(run: seq<State>, j: nat, i: nat) returns (m: State)
    requires RunFor(run, j) && i + 1 < |run|
    ensures LeavesAlone(run[i], m, j) && Scheduled(m, run[i + 1])
  {
    assert QuietStepAt(run, i, j);
    m :| LeavesAlone(run[i], m, j) && Scheduled(m, run[i + 1]);
  }

  lemma LastTick(run: seq<State>, j: nat, n: nat)
    requires RunFor(run, j) && 0 < n < |run| && j < |run[n - 1].threads|
    requires run[n - 1].threads[j].state == XT_THREAD_SLEEP_STATE && run[n - 1].threads[j].ticks == 1
    ensures j < |run[n].threads| && Runnable(run[n].threads[j])
  {
    hide Runnable, Scheduled;
    var m := QuietStep(run, j, n - 1);
    RunnableIs(Tick(m.threads[j]));
    WokenThread(m, run[n], j);
  }

  // ----- Bounded waiting -----

  /** How far ahead of the current thread j is in the circular list. */
  function Distance(s: State, j: nat): nat
    requires s.current < |s.threads| && j < |s.threads|
  {
    if j >= s.current then j - s.current else j + |s.threads| - s.current
  }

  /** The running thread has time left, j is runnable, and every slice is between 1 and q. */
  ghost predicate Waiting(s: State, j: nat, q: nat) {
    && s.current < |s.threads| && j < |s.threads| && Runnable(s.threads[j])
    && Runnable(s.threads[s.current]) && s.threads[s.current].ticks >= 1
    && forall i :: 0 <= i < |s.threads| ==> 1 <= s.threads[i].privilege <= q
  }

  /** Between two calls the running thread keeps running and j stays runnable; all else may change. */
  ghost predicate KeepsRunning(s: State, m: State, j: nat, q: nat) {
    && |m.threads| == |s.threads| && m.current == s.current
    && Waiting(m, j, q) && s.current < |s.threads| && m.threads[m.current].ticks == s.threads[s.current].ticks
  }

  ghost predicate FairRun(run: seq<State>, j: nat, q: nat) {
    forall i :: 0 <= i < |run| - 1 ==> FairStepAt(run, i, j, q)
  }

  ghost predicate FairStepAt(run: seq<State>, i: nat, j: nat, q: nat)
    requires i + 1 < |run|
  {
    exists m :: KeepsRunning(run[i], m, j, q) && Scheduled(m, run[i + 1])
  }

  /** Calls that can still pass before j runs. */
  ghost function Bound(s: State, j: nat, q: nat): nat
    requires s.current < |s.threads| && j < |s.threads|
  {
    if Distance(s, j) == 0 then 0 else s.threads[s.current].ticks + (Distance(s, j) - 1) * q
  }

  /** Every call brings j nearer. */
  lemma CallBringsNearer(s: State, r: State, j: nat, q: nat)
    requires Waiting(s, j, q) && s.current != j && Scheduled(s, r)
    ensures r.current < |r.threads| && |r.threads| == |s.threads| && Bound(r, j, q) < Bound(s, j, q)
    ensures r.current != j ==> r.threads[r.current].ticks >= 1
  {
    AwakeIsUnticked(s.threads[s.current]);
    AwakeIsUnticked(s.threads[j]);
    ChargedCurrent(s);
    hide Runnable;
    var ts := Charged(s);
    if !GoesOn(s) {
      var d :| FirstRunnable(ts, s.current, d) && r == Chosen(ts, s.current, d);
      var far := Distance(s, j);
      assert Around(s.current, far, |ts|) == j && ts[j] == s.threads[j];
      assert d <= far;
      assert Distance(r, j) == far - d;
      assert r.threads[r.current].ticks == ts[r.current].privilege <= q;
      if d < far { SliceFits(far, d, r.threads[r.current].ticks, q); }
      else { LastStep(far, q); }
    }
  }

  lemma ChargedCurrent(s: State)
    requires s.current < |s.threads| && Runnable(s.threads[s.current])
    ensures Charged(s)[s.current] == s.threads[s.current].(ticks := MinusOne(s.threads[s.current].ticks))
    ensures Runnable(Charged(s)[s.current])
    ensures forall i :: 0 <= i < |s.threads| ==> Charged(s)[i].privilege == s.threads[i].privilege
  {
    AwakeIsUnticked(s.threads[s.current]);
    hide And;
  }

  lemma LastStep(far: nat, q: nat)
    requires far >= 1
    ensures (far - 1) * q >= 0
  {}

  lemma AwakeIsUnticked(t: Thread)
    requires Runnable(t)
    ensures Tick(t) == t
  {
    hide And;
    RunnableIs(t);
  }

  lemma SliceFits(far: nat, d: nat, slice: nat, q: nat)
    requires 1 <= d < far && slice <= q
    ensures slice + (far - d - 1) * q < 1 + (far - 1) * q
  {
    assert (far - 1) * q == (far - d - 1) * q + d * q;
    MulAtLeast(q, d);
  }

  /** A thread that stays runnable at distance d runs within ticks + (d - 1) * q calls. */
  lemma BoundedWaiting(run: seq<State>, j: nat, q: nat) returns (i: nat)
    requires run != [] && FairRun(run, j, q) && HasTime(run[0], j)
    requires Bound(run[0], j, q) < |run|
    ensures i <= Bound(run[0], j, q) < |run| && run[i].current == j
  {
    i := BoundedFrom(run, 0, j, q);
  }

  ghost predicate HasTime(s: State, j: nat) {
    && s.current < |s.threads| && j < |s.threads|
    && (s.current != j ==> s.threads[s.current].ticks >= 1)
  }

  lemma {:induction false} BoundedFrom(run: seq<State>, from: nat, j: nat, q: nat) returns (i: nat)
    requires from < |run| && FairRun(run, j, q) && HasTime(run[from], j)
    requires from + Bound(run[from], j, q) < |run|
    ensures from <= i <= from + Bound(run[from], j, q) && run[i].current == j
    decreases |run| - from
  {
    hide Scheduled, Waiting, Bound;
    if run[from].current == j {
      BoundPositive(run[from], j, q);
      return from;
    }
    BoundPositive(run[from], j, q);
    var m := FairStep(run, from, j, q);
    CallBringsNearer(m, run[from + 1], j, q);
    SameBound(run[from], m, j, q);
    i := BoundedFrom(run, from + 1, j, q);
  }

  lemma FairStep(run: seq<State>, i: nat, j: nat, q: nat) returns (m: State)
    requires FairRun(run, j, q) && i + 1 < |run|
    ensures KeepsRunning(run[i], m, j, q) && Scheduled(m, run[i + 1])
  {
    assert FairStepAt(run, i, j, q);
    m :| KeepsRunning(run[i], m, j, q) && Scheduled(m, run[i + 1]);
  }

  lemma BoundPositive(s: State, j: nat, q: nat)
    requires HasTime(s, j)
    ensures s.current == j <==> Bound(s, j, q) == 0
  {
    if s.current != j { LastStep(Distance(s, j), q); }
  }

  lemma SameBound(s: State, m: State, j: nat, q: nat)
    requires KeepsRunning(s, m, j, q) && j < |s.threads|
    ensures Bound(m, j, q) == Bound(s, j, q)
  {}

  // ----- Slices -----

  /** A running thread that has more than its last tick left loses one and stays current; otherwise the next one gets a
      slice as long as its privilege. No slice length changes, and all other threads only sleep or wake. */
  ghost predicate Charges(s: State, r: State) {
    && s.current < |s.threads| == |r.threads| && r.current < |r.threads|
    && (forall i :: 0 <= i < |s.threads| ==> r.threads[i].privilege == s.threads[i].privilege)
    && (forall i :: 0 <= i < |s.threads| && i != s.current && i != r.current ==> r.threads[i] == Tick(s.threads[i]))
    && var c := Tick(s.threads[s.current]);
       if c.state % 16 == 1 && c.ticks != 1
       then r.current == s.current && r.threads[r.current] == c.(ticks := if c.ticks == 0 then 0xffff_ffff_ffff_ffff else c.ticks - 1)
       else r.threads[r.current].ticks == r.threads[r.current].privilege && exists d :: NextInTurn(r.threads, s.current, d, r.current)
  }

  /** Thread c is the first after `from`, going round the list, that can run. */
  ghost predicate NextInTurn(ts: seq<Thread>, from: nat, d: nat, c: nat) {
    && 1 <= d <= |ts| && c == (from + d) % |ts| && ts[c].state % 16 == 1
    && forall e :: 1 <= e < d ==> PassedOver(ts, from, e)
  }

  predicate PassedOver(ts: seq<Thread>, from: nat, e: nat) {
    0 < |ts| && ts[(from + e) % |ts|].state % 16 != 1
  }

  lemma InTurn(ts: seq<Thread>, from: nat, d: nat)
    requires FirstRunnable(ts, from, d)
    ensures NextInTurn(ts, from, d, Around(from, d, |ts|))
  {
    hide And, Runnable;
    AroundIs(from, d, |ts|);
    RunnableIs(ts[Around(from, d, |ts|)]);
    forall e | 1 <= e < d ensures PassedOver(ts, from, e) {
      AroundIs(from, e, |ts|);
      RunnableIs(ts[Around(from, e, |ts|)]);
    }
  }

  lemma AroundIs(from: nat, d: nat, n: nat)
    requires from < n && d <= n
    ensures Around(from, d, n) == (from + d) % n
  {
    DivModUnique(from + d, n, if from + d < n then 0 else 1, Around(from, d, n));
  }

  lemma CallCharges(s: State, r: State)
    requires Scheduled(s, r)
    ensures Charges(s, r)
  {
    var ts := Charged(s);
    RunnableIs(Tick(s.threads[s.current]));
    RunnableIs(ts[s.current]);
    hide Runnable;
    if !GoesOn(s) {
      var d :| FirstRunnable(ts, s.current, d) && r == Chosen(ts, s.current, d);
      RunnableIs(ts[r.current]);
      StillFirst(ts, s.current, d);
      InTurn(r.threads, s.current, d);
    }
  }

  /** Between two calls the running thread c is left as it is; all else may change. */
  ghost predicate OwnStepAt(run: seq<State>, i: nat, c: nat)
    requires i + 1 < |run|
  {
    exists m :: LeavesAlone(run[i], m, c) && m.current == run[i].current && Scheduled(m, run[i + 1])
  }

  ghost predicate OwnRun(run: seq<State>, a: nat, c: nat) {
    forall i :: a <= i < |run| - 1 ==> OwnStepAt(run, i, c)
  }

  /** At call a, thread c has just got its slice. */
  ghost predicate JustChosen(run: seq<State>, a: nat, c: nat, p: nat) {
    && a < |run| && run[a].current == c < |run[a].threads|
    && run[a].threads[c].state % 16 == 1 && run[a].threads[c].ticks == run[a].threads[c].privilege == p < TWO_64
  }

  /** A chosen thread that stays runnable is current for as many calls as its privilege says, 2^64 for 0 ... */
  lemma {:induction false} RunsItsSlice(run: seq<State>, a: nat, c: nat, p: nat, i: nat)
    requires OwnRun(run, a, c) && JustChosen(run, a, c, p) && i < Due(p) && a + i < |run|
    ensures run[a + i].current == c < |run[a + i].threads| && run[a + i].threads[c].state % 16 == 1
    ensures run[a + i].threads[c].ticks == if i == 0 then p else Due(p) - i
    decreases i
  {
    if i > 0 {
      RunsItsSlice(run, a, c, p, i - 1);
      OwnCall(run, a + i - 1, c);
    }
  }

  /** ... and no longer: the next call chooses again, by the round robin, and gives out a fresh slice. */
  lemma EndsItsSlice(run: seq<State>, a: nat, c: nat, p: nat)
    requires OwnRun(run, a, c) && JustChosen(run, a, c, p) && a + Due(p) < |run|
    ensures var r := run[a + Due(p)];
      && r.current < |r.threads| && r.threads[r.current].ticks == r.threads[r.current].privilege
      && exists d :: FirstRunnable(r.threads, c, d) && r.current == Around(c, d, |r.threads|)
  {
    RunsItsSlice(run, a, c, p, Due(p) - 1);
    OwnCall(run, a + Due(p) - 1, c);
  }

  lemma OwnCall(run: seq<State>, i: nat, c: nat)
    requires i + 1 < |run| && OwnStepAt(run, i, c) && run[i].current == c < |run[i].threads|
    requires run[i].threads[c].state % 16 == 1
    ensures var t, r := run[i].threads[c], run[i + 1];
      && r.current < |r.threads|
      && (t.ticks != 1 ==> r.current == c && r.threads[c].state % 16 == 1 && r.threads[c].ticks == MinusOne(t.ticks))
      && (t.ticks == 1 ==> r.threads[r.current].ticks == r.threads[r.current].privilege)
      && (t.ticks == 1 ==> exists d :: FirstRunnable(r.threads, c, d) && r.current == Around(c, d, |r.threads|))
  {
    var m :| LeavesAlone(run[i], m, c) && m.current == run[i].current && Scheduled(m, run[i + 1]);
    CallCharges(m, run[i + 1]);
    RunnableIs(m.threads[c]);
    AwakeIsUnticked(m.threads[c]);
    ChargedCurrent(m);
    if m.threads[c].ticks == 1 {
      var d :| FirstRunnable(Charged(m), c, d) && run[i + 1] == Chosen(Charged(m), c, d);
      StillFirst(Charged(m), c, d);
    }
  }

  lemma StillFirst(ts: seq<Thread>, c: nat, d: nat)
    requires FirstRunnable(ts, c, d)
    ensures FirstRunnable(Chosen(ts, c, d).threads, c, d)
  {
    hide And;
  }

  // ----- The implementation -----

  /** The C widths of the two counters. */
  predicate Width(t: Thread) {
    t.ticks < TWO_64 && t.privilege < 256
  }

  class Processor {
    var threads: seq<Thread>
    var currentIterator: nat
    var currentThread: nat
    const idle: nat

    /** The current thread is the one the iterator is at, and the idle thread can always run. */
    ghost predicate Valid()
      reads this
    {
      && currentIterator < |threads| && currentThread == currentIterator
      && idle < |threads| && Runnable(threads[idle])
      && forall i :: 0 <= i < |threads| ==> Width(threads[i])
    }

    ghost function View(): State
      reads this
    {
      State(threads, currentThread)
    }

    constructor (threads: seq<Thread>, current: nat, idle: nat)
      requires current < |threads| && idle < |threads| && Runnable(threads[idle])
      requires forall i :: 0 <= i < |threads| ==> Width(threads[i])
      ensures Valid() && View() == State(threads, current) && this.idle == idle
    {
      this.threads, currentIterator, currentThread, this.idle := threads, current, current, idle;
    }

    /** xtSleepThread, up to the switch to another thread. */
    method SleepThread(i: nat, milliseconds: nat)
      requires i < |threads|
      modifies this`threads
      ensures threads == old(threads)[i := Thread(XT_THREAD_SLEEP_STATE, milliseconds, old(threads)[i].privilege)]
    {
      threads := threads[i := threads[i].(state := XT_THREAD_SLEEP_STATE, ticks := milliseconds)];
    }

    /** xtWakeUpThread gives the thread a fresh slice, clears the user bit and sets the lowest bit of the state: it can
        run afterwards exactly if its state was sleeping or running. */
    method WakeUpThread(i: nat)
      requires i < |threads|
      modifies this`threads
      ensures |threads| == |old(threads)| && threads == old(threads)[i := threads[i]]
      ensures threads[i].ticks == threads[i].privilege == old(threads)[i].privilege
      ensures threads[i].state == old(threads)[i].state % 128 / 2 * 2 + 1
      ensures Runnable(threads[i]) <==>
        old(threads)[i].state % 16 == XT_THREAD_SLEEP_STATE || old(threads)[i].state % 16 == XT_THREAD_RUN_STATE
    {
      threads := threads[i := threads[i].(state := Or(And(threads[i].state, 0x7f), XT_THREAD_RUN_STATE),
                                          ticks := threads[i].privilege)];
      WokenStateIs(old(threads)[i].state);
      RunnableIs(threads[i]);
    }

    /** xtWakeUpThreads */
    method WakeUpThreads()
      modifies this`threads
      ensures threads == TickAll(old(threads))
      ensures forall i :: 0 <= i < |threads| ==> OneTick(old(threads)[i], threads[i])
    {
      hide And, Or;
      var i := 0;
      while i < |threads|
        invariant i <= |threads| == |old(threads)|
        invariant forall k :: 0 <= k < |threads| ==> threads[k] == if k < i then Tick(old(threads)[k]) else old(threads)[k]
      {
        if threads[i].state == XT_THREAD_SLEEP_STATE {
          threads := threads[i := threads[i].(ticks := MinusOne(threads[i].ticks))];
          if threads[i].ticks == 0 {
            WakeUpThread(i);
          }
        }
        i := i + 1;
      }
    }

    /** The search of lines 76 to 98; the fallback to the idle thread after a full lap is never needed. */
    method FindNext() returns (ghost d: nat)
      requires currentIterator < |threads| && idle < |threads| && Runnable(threads[idle])
      modifies this`currentIterator, this`currentThread
      ensures FirstRunnable(threads, old(currentIterator), d)
      ensures currentThread == currentIterator == Around(old(currentIterator), d, |threads|)
    {
      hide Runnable;
      var startThreadIter := currentIterator;
      d := 0;
      while true
        invariant startThreadIter == old(currentIterator)
        invariant d < |threads| && currentIterator == Around(startThreadIter, d, |threads|)
        invariant forall e :: 1 <= e <= d ==> !Runnable(threads[Around(startThreadIter, e, |threads|)])
        decreases |threads| - d
      {
        currentIterator := currentIterator + 1;
        if currentIterator == |threads| { currentIterator := 0; }
        d := d + 1;
        currentThread := currentIterator;
        if Runnable(threads[currentThread]) { break; }
        if currentIterator == startThreadIter {
          LapFindsIdle(threads, startThreadIter, d, idle);
          assert false;
        }
      }
    }

    /** xtSchedule */
    method Schedule()
      requires Valid()
      modifies this
      ensures Valid() && Scheduled(old(View()), View()) && Runnable(threads[currentThread])
      ensures Charges(old(View()), View())
    {
      hide Runnable, TickAll, FirstRunnable, Charged, Width, Charges;
      ghost var s := View();
      IdleStays(s, idle);
      ChargedIs(s);
      WidthsKept(s);
      WakeUpThreads();
      if Runnable(threads[currentThread]) {
        threads := threads[currentThread := threads[currentThread].(ticks := MinusOne(threads[currentThread].ticks))];
        if threads[currentThread].ticks > 0 {
          CallCharges(s, View());
          return;
        }
      }
      assert threads == Charged(s);
      ghost var d := FindNext();
      ChosenRuns(Charged(s), s.current, d, idle);
      threads := threads[currentThread := threads[currentThread].(ticks := threads[currentThread].privilege)];
      CallCharges(s, View());
    }
  }

  lemma ChargedIs(s: State)
    requires s.current < |s.threads|
    ensures var ts := TickAll(s.threads); var c := ts[s.current];
      && Charged(s) == (if Runnable(c) then ts[s.current := c.(ticks := MinusOne(c.ticks))] else ts)
      && Runnable(Charged(s)[s.current]) == Runnable(c)
  {
    var c := TickAll(s.threads)[s.current];
    SameState(c, c.(ticks := MinusOne(c.ticks)));
  }

  lemma WidthsKept(s: State)
    requires s.current < |s.threads| && forall i :: 0 <= i < |s.threads| ==> Width(s.threads[i])
    ensures forall i :: 0 <= i < |s.threads| ==> Width(Charged(s)[i])
  {}

  lemma ChosenRuns(ts: seq<Thread>, current: nat, d: nat, idle: nat)
    requires FirstRunnable(ts, current, d) && idle < |ts| && Runnable(ts[idle])
    requires forall i :: 0 <= i < |ts| ==> Width(ts[i])
    ensures var r := Chosen(ts, current, d);
      && |r.threads| == |ts| && r.current < |ts| && Runnable(r.threads[r.current]) && Runnable(r.threads[idle])
      && forall i :: 0 <= i < |ts| ==> Width(r.threads[i])
  {
    hide Runnable;
    var r := Chosen(ts, current, d);
    SameState(ts[r.current], r.threads[r.current]);
    SameState(ts[idle], r.threads[idle]);
  }

  /** `(state & 0x7f) | XT_THREAD_RUN_STATE` */
  lemma WokenStateIs(state: nat)
    ensures Or(And(state, 0x7f), XT_THREAD_RUN_STATE) == state % 128 / 2 * 2 + 1
    ensures (state % 128 / 2 * 2 + 1) % 16 == state % 16 / 2 * 2 + 1
  {
    assert Pow2(7) == 128 by { Powers(); }
    hide And, Low, Pow2;
    AndLow(state, 7);
    DivideBy(state, 7, 128);
    SetLowest(state % 128);
    hide Or;
    LowNibble(state);
  }

  lemma LowNibble(state: nat)
    ensures (state % 128 / 2 * 2 + 1) % 16 == state % 16 / 2 * 2 + 1
  {
    var r := state % 128;
    var a, b := r / 16, r % 16;
    DivModUnique(state, 16, state / 128 * 8 + a, b);
    DivModUnique(r, 2, 8 * a + b / 2, b % 2);
    DivModUnique(r / 2 * 2 + 1, 16, a, b / 2 * 2 + 1);
  }

  lemma SetLowest(x: nat)
    ensures Or(x, 1) == x / 2 * 2 + 1
  {
    OrHalf(x, 1);
    AndZero(x / 2);
  }

  /** A waiting thread is not woken: its state becomes another one in which it cannot run. */
  lemma WaitingIsNotWoken(ticks: nat, privilege: nat)
    ensures var woken := Thread(Or(And(4, 0x7f), XT_THREAD_RUN_STATE), ticks, privilege);
      woken.state == 5 && !Runnable(woken)
  {
    WokenStateIs(XT_THREAD_WAIT_STATE);
    RunnableIs(Thread(XT_THREAD_INTERRUPTABLE_STATE, ticks, privilege));
  }

  lemma SameState(a: Thread, b: Thread)
    requires a.state == b.state
    ensures Runnable(a) == Runnable(b)
  {}

  lemma IdleStays(s: State, idle: nat)
    requires s.current < |s.threads| && idle < |s.threads| && Runnable(s.threads[idle])
    ensures Runnable(Charged(s)[idle])
  {
    AwakeIsUnticked(s.threads[idle]);
    SameState(s.threads[idle], Charged(s)[idle]);
  }

  /** A whole lap without a runnable thread would have passed the idle thread. */
  lemma LapFindsIdle(ts: seq<Thread>, from: nat, d: nat, idle: nat)
    requires from < |ts| && 1 <= d <= |ts| && Around(from, d, |ts|) == from && idle < |ts|
    requires forall e :: 1 <= e <= d ==> !Runnable(ts[Around(from, e, |ts|)])
    ensures !Runnable(ts[idle])
  {
    var e := if idle > from then idle - from else idle + |ts| - from;
    assert Around(from, e, |ts|) == idle;
  }
}
