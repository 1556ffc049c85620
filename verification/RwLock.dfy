/**
  * The reader/writer lock of the echo benchmark: one mutex, two counters, and one condition variable on
  * which readers and writers wait together. The last reader only signals; a writer broadcasts.
  *
  * Each span under the mutex is one atomic step of one thread. A thread that waits stays asleep until a
  * signal, a broadcast or a spurious wakeup; it then re-takes the mutex and re-tests its condition.
  */
module RwLock {

  datatype Phase = Idle | Reading | Writing | WaitRead | WaitWrite | WokenRead | WokenWrite

  /** The two counters of the lock. */
  datatype Counters = Counters(readers: int, writer: int)

  datatype State = State(lock: Counters, threads: seq<Phase>)

  /** Unlock carries the set of threads the condition variable chose to wake. */
  datatype Event =
    | Ask(t: nat, write: bool)
    | Resume(t: nat)
    | Unlock(t: nat, woken: set<nat>)
    | Spurious(t: nat)

  // ---- the code under the mutex ----

  // The test that sends a reader, or a writer, to sleep.
  predicate MustWait(lock: Counters, write: bool) {
    lock.writer != 0 || (write && lock.readers != 0)
  }

  function Enter(lock: Counters, write: bool): Counters {
    if write then lock.(writer := lock.writer + 1) else lock.(readers := lock.readers + 1)
  }

  // None is the error return: nothing is held.
  datatype Left = Failed | Freed(lock: Counters, signal: bool, broadcast: bool)

  function LeaveRead(lock: Counters): Left {
    if lock.readers == 0 then Failed
    else
      var lock1 := lock.(readers := lock.readers - 1);
      Freed(lock1, lock1.readers == 0, false)
  }

  function LeaveWrite(lock: Counters): Left {
    if lock.writer == 0 then Failed else Freed(lock.(writer := 0), false, true)
  }

  class Rdwr {
    var readersReading: int
    var writerWriting: int

    function Value(): Counters
      reads this
    {
      Counters(readersReading, writerWriting)
    }

    constructor ()
      ensures Value() == Counters(0, 0)
    {
      readersReading := 0;
      writerWriting := 0;
    }

    // One pass through the loop of a lock call: enter, or go back to sleep.
    method Attempt(write: bool) returns (entered: bool)
      modifies this
      ensures entered == !MustWait(old(Value()), write)
      ensures entered <==> old(writerWriting) == 0 && (write ==> old(readersReading) == 0)
      ensures Value() == if entered then Enter(old(Value()), write) else old(Value())
      ensures readersReading == old(readersReading) + (if entered && !write then 1 else 0)
      ensures writerWriting == old(writerWriting) + (if entered && write then 1 else 0)
    {
      if write {
        if writerWriting != 0 || readersReading != 0 {
          return false;
        }
        writerWriting := writerWriting + 1;
      } else {
        if writerWriting != 0 {
          return false;
        }
        readersReading := readersReading + 1;
      }
      return true;
    }

    method RUnlock() returns (rc: int, signal: bool)
      modifies this
      ensures LeaveRead(old(Value())).Failed? ==> rc == -1 && !signal && Value() == old(Value())
      ensures LeaveRead(old(Value())).Freed? ==> rc == 0 && LeaveRead(old(Value())) == Freed(Value(), signal, false)
      ensures writerWriting == old(writerWriting) && (rc == -1 <==> old(readersReading) == 0)
      ensures rc == 0 ==> readersReading == old(readersReading) - 1 && (signal <==> readersReading == 0)
    {
      signal := false;
      if readersReading == 0 {
        return -1, false;
      }
      readersReading := readersReading - 1;
      if readersReading == 0 {
        signal := true;
      }
      rc := 0;
    }

    method WUnlock() returns (rc: int, broadcast: bool)
      modifies this
      ensures LeaveWrite(old(Value())).Failed? ==> rc == -1 && !broadcast && Value() == old(Value())
      ensures LeaveWrite(old(Value())).Freed? ==> rc == 0 && LeaveWrite(old(Value())) == Freed(Value(), false, broadcast)
      ensures readersReading == old(readersReading) && (rc == -1 <==> old(writerWriting) == 0)
      ensures rc == 0 ==> writerWriting == 0 && broadcast
    {
      if writerWriting == 0 {
        return -1, false;
      }
      writerWriting := 0;
      return 0, true;
    }
  }

  // ---- the threads around it ----

  predicate Waits(p: Phase) { p == WaitRead || p == WaitWrite }

  predicate Woken(p: Phase) { p == WokenRead || p == WokenWrite }

  predicate Holds(p: Phase) { p == Reading || p == Writing }

  function WakeUp(p: Phase): Phase {
    match p
    case WaitRead => WokenRead
    case WaitWrite => WokenWrite
    case _ => p
  }

  function Wake(threads: seq<Phase>, woken: set<nat>): (r: seq<Phase>)
    ensures |r| == |threads|
    ensures forall i :: 0 <= i < |threads| ==> r[i] == if i in woken then WakeUp(threads[i]) else threads[i]
  {
    seq(|threads|, i requires 0 <= i < |threads| => if i in woken then WakeUp(threads[i]) else threads[i])
  }

  // What unlocking does to the counters, by a thread that holds the lock.
  function Leave(s: State, t: nat): Left
    requires t < |s.threads|
  {
    if s.threads[t] == Reading then LeaveRead(s.lock) else LeaveWrite(s.lock)
  }

  // A signal wakes at least one sleeper when there is one, a broadcast all of them, and nothing else none.
  predicate MayWake(threads: seq<Phase>, woken: set<nat>, left: Left) {
    && left.Freed?
    && (forall i :: i in woken ==> i < |threads| && Waits(threads[i]))
    && (left.broadcast ==> forall i :: 0 <= i < |threads| && Waits(threads[i]) ==> i in woken)
    && (left.signal ==> woken != {} || forall i :: 0 <= i < |threads| ==> !Waits(threads[i]))
    && (left.signal || left.broadcast || woken == {})
  }

  predicate Enabled(s: State, ev: Event) {
    && ev.t < |s.threads|
    && match ev
       case Ask(t, _) => s.threads[t] == Idle
       case Resume(t) => Woken(s.threads[t])
       case Unlock(t, woken) => Holds(s.threads[t]) && MayWake(s.threads, woken, Leave(s, t))
       case Spurious(t) => Waits(s.threads[t])
  }

  function TryEnter(s: State, t: nat, write: bool): State
    requires t < |s.threads|
  {
    if MustWait(s.lock, write)
    then s.(threads := s.threads[t := if write then WaitWrite else WaitRead])
    else State(Enter(s.lock, write), s.threads[t := if write then Writing else Reading])
  }

  function Next(s: State, ev: Event): (s': State)
    requires Enabled(s, ev)
    ensures |s'.threads| == |s.threads|
  {
    match ev
    case Ask(t, write) => TryEnter(s, t, write)
    case Resume(t) => TryEnter(s, t, s.threads[t] == WokenWrite)
    case Unlock(t, woken) => State(Leave(s, t).lock, Wake(s.threads, woken)[t := Idle])
    case Spurious(t) => s.(threads := s.threads[t := WakeUp(s.threads[t])])
  }

  predicate Possible(s: State, events: seq<Event>)
    decreases |events|
  {
    events == [] || (Enabled(s, events[0]) && Possible(Next(s, events[0]), events[1..]))
  }

  function Run(s: State, events: seq<Event>): (s': State)
    requires Possible(s, events)
    ensures |s'.threads| == |s.threads|
    decreases |events|
  {
    if events == [] then s else Run(Next(s, events[0]), events[1..])
  }

  function Start(n: nat): State {
    State(Counters(0, 0), seq(n, i => Idle))
  }

  // ---- safety ----

  function Count(threads: seq<Phase>, p: Phase): nat {
    if threads == [] then 0
    else Count(threads[..|threads| - 1], p) + if threads[|threads| - 1] == p then 1 else 0
  }

  lemma {:induction false} CountUpdate(threads: seq<Phase>, t: nat, x: Phase, p: Phase)
    requires t < |threads|
    ensures Count(threads[t := x], p) == Count(threads, p)
              - (if threads[t] == p then 1 else 0) + (if x == p then 1 else 0)
  {
    var last := |threads| - 1;
    if t == last {
      assert threads[t := x][..last] == threads[..last];
    } else {
      assert threads[t := x][..last] == threads[..last][t := x];
      CountUpdate(threads[..last], t, x, p);
    }
  }

  // Threads that are in phase p on both sides count alike.
  lemma {:induction false} CountSame(a: seq<Phase>, b: seq<Phase>, p: Phase)
    requires |a| == |b|
    requires forall i :: 0 <= i < |a| ==> (a[i] == p <==> b[i] == p)
    ensures Count(a, p) == Count(b, p)
  {
    if a != [] {
      CountSame(a[..|a| - 1], b[..|b| - 1], p);
    }
  }

  // A count above zero has a thread to show for it.
  lemma {:induction false} CountSome(threads: seq<Phase>, p: Phase) returns (t: nat)
    requires Count(threads, p) > 0
    ensures t < |threads| && threads[t] == p
  {
    var last := |threads| - 1;
    if threads[last] == p {
      t := last;
    } else {
      t := CountSome(threads[..last], p);
    }
  }

  lemma {:induction false} CountPositive(threads: seq<Phase>, t: nat)
    requires t < |threads|
    ensures Count(threads, threads[t]) >= 1
  {
    if t < |threads| - 1 {
      CountPositive(threads[..|threads| - 1], t);
    }
  }

  // Two threads in the same phase make a count of two.
  lemma {:induction false} CountTwo(threads: seq<Phase>, t: nat, u: nat)
    requires t < u < |threads| && threads[t] == threads[u]
    ensures Count(threads, threads[t]) >= 2
  {
    if u < |threads| - 1 {
      CountTwo(threads[..|threads| - 1], t, u);
    } else {
      CountPositive(threads[..|threads| - 1], t);
    }
  }

  predicate Free(lock: Counters) {
    lock.readers == 0 && lock.writer == 0
  }

  predicate SomeWoken(threads: seq<Phase>) {
    exists i :: 0 <= i < |threads| && Woken(threads[i])
  }

  predicate NoneWaits(threads: seq<Phase>) {
    forall i :: 0 <= i < |threads| ==> !Waits(threads[i])
  }

  // Counters and holders agree; a writer is alone.
  predicate Counted(s: State) {
    && s.lock.readers == Count(s.threads, Reading)
    && s.lock.writer == Count(s.threads, Writing)
    && s.lock.writer <= 1
    && (s.lock.writer == 1 ==> s.lock.readers == 0)
  }

  // Readers sleep only behind a writer. This is why one signal from the last reader is enough.
  predicate ReadersSleepBehindWriter(s: State) {
    s.lock.writer == 0 ==> forall i :: 0 <= i < |s.threads| ==> s.threads[i] != WaitRead
  }

  // A free lock never leaves everyone asleep.
  predicate NoLostWakeup(s: State) {
    Free(s.lock) && !NoneWaits(s.threads) ==> SomeWoken(s.threads)
  }

  predicate Inv(s: State) {
    Counted(s) && ReadersSleepBehindWriter(s) && NoLostWakeup(s)
  }

  lemma StartInv(n: nat)
    ensures Inv(Start(n))
  {
    CountIdle(n, Reading);
    CountIdle(n, Writing);
  }

  lemma {:induction false} CountIdle(n: nat, p: Phase)
    requires p != Idle
    ensures Count(Start(n).threads, p) == 0
  {
    if Count(Start(n).threads, p) > 0 {
      var t := CountSome(Start(n).threads, p);
    }
  }

  lemma EnterKeeps(s: State, t: nat, write: bool)
    requires Inv(s) && t < |s.threads| && (s.threads[t] == Idle || Woken(s.threads[t]))
    ensures Inv(TryEnter(s, t, write))
  {
    hide Count;
    var x := if MustWait(s.lock, write) then (if write then WaitWrite else WaitRead) else (if write then Writing else Reading);
    CountUpdate(s.threads, t, x, Reading);
    CountUpdate(s.threads, t, x, Writing);
  }

  lemma UnlockKeeps(s: State, t: nat, woken: set<nat>)
    requires Inv(s) && Enabled(s, Unlock(t, woken))
    ensures Inv(Next(s, Unlock(t, woken)))
  {
    hide Count;
    var awake := Wake(s.threads, woken);
    CountSame(s.threads, awake, Reading);
    CountSame(s.threads, awake, Writing);
    CountUpdate(awake, t, Idle, Reading);
    CountUpdate(awake, t, Idle, Writing);
    CountPositive(s.threads, t);
    var s' := Next(s, Unlock(t, woken));
    if Free(s'.lock) && !NoneWaits(s'.threads) {
      var i :| 0 <= i < |s'.threads| && Waits(s'.threads[i]);
      assert Waits(s.threads[i]);
      var w :| w in woken;
      assert Woken(s'.threads[w]);
    }
  }

  lemma SpuriousKeeps(s: State, t: nat)
    requires Inv(s) && Enabled(s, Spurious(t))
    ensures Inv(Next(s, Spurious(t)))
  {
    hide Count;
    var x := WakeUp(s.threads[t]);
    CountUpdate(s.threads, t, x, Reading);
    CountUpdate(s.threads, t, x, Writing);
    assert Woken(Next(s, Spurious(t)).threads[t]);
  }

  /** Every step of every thread, spurious wakeups included, keeps the lock right. */
  lemma StepKeeps(s: State, ev: Event)
    requires Inv(s) && Enabled(s, ev)
    ensures Inv(Next(s, ev))
  {
    hide Inv, MayWake, TryEnter;
    match ev
    case Ask(t, write) => EnterKeeps(s, t, write);
    case Resume(t) => EnterKeeps(s, t, s.threads[t] == WokenWrite);
    case Unlock(t, woken) => UnlockKeeps(s, t, woken);
    case Spurious(t) => SpuriousKeeps(s, t);
  }

  lemma {:induction false} RunKeeps(s: State, events: seq<Event>)
    requires Inv(s) && Possible(s, events)
    ensures Inv(Run(s, events))
    decreases |events|
  {
    hide Inv, Enabled, Next;
    if events != [] {
      StepKeeps(s, events[0]);
      RunKeeps(Next(s, events[0]), events[1..]);
    }
  }

  /** Over every interleaving: the counters are the numbers of readers and writers inside. */
  lemma CountersAreHolders(n: nat, events: seq<Event>)
    requires Possible(Start(n), events)
    ensures var s := Run(Start(n), events);
            s.lock == Counters(Count(s.threads, Reading), Count(s.threads, Writing))
  {
    hide Run, Possible, Count, ReadersSleepBehindWriter, NoLostWakeup;
    StartInv(n);
    RunKeeps(Start(n), events);
  }

  /** Over every interleaving, a writer excludes every other thread. */
  lemma WriterExcludes(n: nat, events: seq<Event>, t: nat, u: nat)
    requires Possible(Start(n), events) && t < n && u < n && t != u
    requires Run(Start(n), events).threads[t] == Writing
    ensures !Holds(Run(Start(n), events).threads[u])
  {
    hide Run, Possible, Count, ReadersSleepBehindWriter, NoLostWakeup;
    StartInv(n);
    RunKeeps(Start(n), events);
    var s := Run(Start(n), events);
    CountPositive(s.threads, t);
    CountPositive(s.threads, u);
    if s.threads[u] == Writing {
      CountTwo(s.threads, if t < u then t else u, if t < u then u else t);
    }
  }

  /** No wakeup is lost: whenever the lock is free and someone waits, some awakened thread is pending,
    * and when that thread runs it gets the lock. */
  lemma WakeupsNotLost(n: nat, events: seq<Event>)
    requires Possible(Start(n), events)
    requires Free(Run(Start(n), events).lock) && !NoneWaits(Run(Start(n), events).threads)
    ensures var s := Run(Start(n), events);
            exists t: nat :: Enabled(s, Resume(t)) && Holds(Next(s, Resume(t)).threads[t])
  {
    hide Run, Possible, Count, Counted;
    StartInv(n);
    RunKeeps(Start(n), events);
    var s := Run(Start(n), events);
    var t :| 0 <= t < |s.threads| && Woken(s.threads[t]);
    assert Enabled(s, Resume(t)) && Holds(Next(s, Resume(t)).threads[t]);
  }

  // ---- everyone is served ----

  // How far a thread is from having finished.
  function Stage(p: Phase): nat {
    if p == Idle then 0 else if Holds(p) then 1 else 2
  }

  // The work left: what every thread still has to do, and then the awakenings to be used up.
  function Rank(threads: seq<Phase>, unit: nat): nat {
    if threads == [] then 0
    else
      var p := threads[|threads| - 1];
      Rank(threads[..|threads| - 1], unit) + unit * Stage(p) + if Woken(p) then 1 else 0
  }

  function Weight(p: Phase, unit: nat): nat {
    unit * Stage(p) + if Woken(p) then 1 else 0
  }

  lemma {:induction false} RankUpdate(threads: seq<Phase>, t: nat, x: Phase, unit: nat)
    requires t < |threads|
    ensures Rank(threads[t := x], unit) == Rank(threads, unit) - Weight(threads[t], unit) + Weight(x, unit)
  {
    var last := |threads| - 1;
    if t == last {
      assert threads[t := x][..last] == threads[..last];
    } else {
      assert threads[t := x][..last] == threads[..last][t := x];
      RankUpdate(threads[..last], t, x, unit);
    }
  }

  // Waking adds at most one for each thread.
  lemma {:induction false} RankWake(a: seq<Phase>, b: seq<Phase>, unit: nat)
    requires |a| == |b|
    requires forall i :: 0 <= i < |a| ==> b[i] == a[i] || b[i] == WakeUp(a[i])
    ensures Rank(b, unit) <= Rank(a, unit) + |a|
  {
    if a != [] {
      RankWake(a[..|a| - 1], b[..|b| - 1], unit);
    }
  }

  lemma {:induction false} RankAtMost(threads: seq<Phase>, unit: nat)
    ensures Rank(threads, unit) <= |threads| * (2 * unit + 1)
  {
    if threads != [] {
      var n, w := |threads|, 2 * unit + 1;
      assert n * w == (n - 1) * w + w;
      assert unit * Stage(threads[n - 1]) <= 2 * unit;
      RankAtMost(threads[..n - 1], unit);
    }
  }

  // Serving: no new requests and no spurious wakeups; threads resume, and holders finish.
  predicate Serves(ev: Event) {
    ev.Resume? || ev.Unlock?
  }

  lemma ServingDecreases(s: State, ev: Event)
    requires Enabled(s, ev) && Serves(ev)
    ensures var unit := |s.threads| + 1;
            Rank(Next(s, ev).threads, unit) < Rank(s.threads, unit)
  {
    hide Rank, MayWake;
    var unit := |s.threads| + 1;
    var t := ev.t;
    match ev
    case Resume(_) =>
      RankUpdate(s.threads, t, Next(s, ev).threads[t], unit);
    case Unlock(_, woken) =>
      var awake := Wake(s.threads, woken);
      RankWake(s.threads, awake, unit);
      RankUpdate(awake, t, Idle, unit);
  }

  /** However the scheduler and the condition variable choose, serving ends: in at most n(2n + 3) steps. */
  lemma {:induction false} ServingEnds(s: State, events: seq<Event>)
    requires Possible(s, events) && forall i :: 0 <= i < |events| ==> Serves(events[i])
    ensures |events| + Rank(Run(s, events).threads, |s.threads| + 1) <= Rank(s.threads, |s.threads| + 1)
    ensures |events| <= |s.threads| * (2 * |s.threads| + 3)
    decreases |events|
  {
    hide Rank, Enabled, Next;
    RankAtMost(s.threads, |s.threads| + 1);
    assert 2 * (|s.threads| + 1) + 1 == 2 * |s.threads| + 3;
    if events != [] {
      ServingDecreases(s, events[0]);
      ServingEnds(Next(s, events[0]), events[1..]);
    }
  }

  // A thread inside can always leave: its unlock does not fail.
  lemma HolderCanUnlock(s: State, t: nat) returns (woken: set<nat>)
    requires Counted(s) && t < |s.threads| && Holds(s.threads[t])
    ensures Enabled(s, Unlock(t, woken))
  {
    hide Count;
    CountPositive(s.threads, t);
    var left := Leave(s, t);
    woken := if left.signal || left.broadcast then (set i: nat | i < |s.threads| && Waits(s.threads[i])) else {};
    if left.signal && !NoneWaits(s.threads) {
      var i :| 0 <= i < |s.threads| && Waits(s.threads[i]);
      assert i in woken;
    }
  }

  /** When nobody can be served any more, nobody is left waiting: every thread has had its turn. */
  lemma EveryoneServed(s: State)
    requires Inv(s)
    requires forall ev :: Serves(ev) ==> !Enabled(s, ev)
    ensures forall t :: 0 <= t < |s.threads| ==> s.threads[t] == Idle
  {
    hide Count;
    forall t | 0 <= t < |s.threads|
      ensures !Holds(s.threads[t]) && !Woken(s.threads[t])
    {
      assert !Enabled(s, Resume(t));
      if Holds(s.threads[t]) {
        var woken := HolderCanUnlock(s, t);
      }
    }
    if s.lock.readers > 0 {
      var t := CountSome(s.threads, Reading);
    }
    if s.lock.writer > 0 {
      var t := CountSome(s.threads, Writing);
    }
  }
}
