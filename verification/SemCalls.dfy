/**
  * The semaphore calls as the source makes them: loops that update the slots of the shared database one
  * by one, with the status as an in-out variable. Each is tied to what its critical section does.
  */
module SemCalls {
  import opened SemSpec
  import opened SemEntry
  import opened SemRuns

  class Database {
    var sems: Db

    ghost predicate Valid()
      reads this
    {
      AllShaped(sems) && GoodDb(sems)
    }

    constructor ()
      ensures Valid() && sems == EmptyDb()
    {
      sems := EmptyDb();
      EmptyGood();
    }

    // What other nodes do while this one is not inside the database lock.
    method Others(events: seq<Event>)
      requires Valid() && AllLegal(events)
      modifies this
      ensures Valid() && sems == Run(old(sems), events)
    {
      RunKeeps(sems, events);
      sems := Run(sems, events);
    }

    method LockSlot(s: nat, l: nat, who: Node)
      requires s < |sems| && l < |sems[s].locks| && sems[s].locks[l].valid
      modifies this
      ensures |sems| == |old(sems)|
      ensures var e := old(sems)[s];
              sems == old(sems)[s := e.(locks := e.locks[l := Slot(true, true, who)], numLocks := e.numLocks + 1)]
    {
      var slot := sems[s].locks[l];
      slot := slot.(locked := true);
      slot := slot.(owner := who);
      sems := sems[s := sems[s].(locks := sems[s].locks[l := slot])];
      sems := sems[s := sems[s].(numLocks := sems[s].numLocks + 1)];
    }

    // The loop that collects every lock.
    method CollectSlots(who: Node, s: nat, status: Status) returns (added: int, st: Status)
      requires s < |sems| && Shaped(sems[s])
      modifies this
      ensures |sems| == |old(sems)|
      ensures var e := old(sems)[s];
              var w := Collect(e.locks, 0, e.limit, who, 0);
              && sems == old(sems)[s := e.(locks := w.locks, numLocks := e.numLocks + Held(w.locks, Anyone) - Held(e.locks, Anyone))]
              && added == w.count && st == if w.done then Success else status
    {
      hide Held;
      ghost var e := sems[s];
      ghost var before := sems;
      ghost var w := Collect(e.locks, 0, e.limit, who, 0);
      added, st := 0, status;
      var l := 0;
      while l < sems[s].limit
        invariant |sems| == |before| && 0 <= l <= e.limit
        invariant sems == before[s := e.(locks := sems[s].locks, numLocks := sems[s].numLocks)]
        invariant |sems[s].locks| == |e.locks|
        invariant sems[s].numLocks == e.numLocks + Held(sems[s].locks, Anyone) - Held(e.locks, Anyone)
        invariant w == Collect(sems[s].locks, l, e.limit, who, added) && st == status
      {
        var slot := sems[s].locks[l];
        if slot.valid {
          if slot.locked {
            if who.n == slot.owner.n && who.d == slot.owner.d {
              added := added + 1;
            }
          } else {
            HeldUpdate(sems[s].locks, l, Slot(true, true, who), Anyone);
            LockSlot(s, l, who);
            added := added + 1;
          }
        }
        if added == sems[s].limit {
          st := Success;
          break;
        }
        l := l + 1;
      }
    }

    // The loop that takes a given number of free locks.
    method TakeSlots(who: Node, s: nat, want: int, status: Status) returns (added: int, st: Status)
      requires s < |sems| && Shaped(sems[s])
      modifies this
      ensures |sems| == |old(sems)|
      ensures var e := old(sems)[s];
              var w := Take(e.locks, 0, e.limit, who, 0, want);
              && sems == old(sems)[s := e.(locks := w.locks, numLocks := e.numLocks + w.count)]
              && added == w.count && st == if w.done then Success else status
    {
      ghost var e := sems[s];
      ghost var before := sems;
      ghost var w := Take(e.locks, 0, e.limit, who, 0, want);
      added, st := 0, status;
      var l := 0;
      while l < sems[s].limit
        invariant |sems| == |before| && 0 <= l <= e.limit
        invariant sems == before[s := e.(locks := sems[s].locks, numLocks := sems[s].numLocks)]
        invariant |sems[s].locks| == |e.locks|
        invariant sems[s].numLocks == e.numLocks + added
        invariant w == Take(sems[s].locks, l, e.limit, who, added, want) && st == status
      {
        var slot := sems[s].locks[l];
        if slot.valid && !slot.locked {
          LockSlot(s, l, who);
          added := added + 1;
        }
        if added == want {
          st := Success;
          break;
        }
        l := l + 1;
      }
    }

    /** One attempt at the locks of one semaphore, inside the database lock. */
    method AcquireLock(who: Node, s: nat, want: int, status: Status) returns (added: int, st: Status)
      requires Valid() && s < |sems| && Real(who) && want != 0
      modifies this
      ensures Valid()
      ensures var a := Acquire(old(sems)[s], who, want, status);
              sems == old(sems)[s := a.entry] && added == a.added && st == a.status
      ensures sems == Step(old(sems), Acquiring(who, s, want))
    {
      hide GoodDb, Good, Held, Collect, Take;
      SameForAnyStatus(sems[s], who, want, status);
      ghost var before := sems;
      if want < 0 {
        added, st := CollectSlots(who, s, status);
      } else if sems[s].limit - sems[s].numLocks - want >= 0 {
        added, st := TakeSlots(who, s, want, status);
      } else {
        added, st := 0, Locked(sems[s].kind);
      }
      assert sems == before[s := Acquire(before[s], who, want, status).entry];
      AcquireKeeps(before, who, s, want, status);
    }

    // The first loop of a release counts, the second unlocks.
    method CountSlots(whose: Whose, s: nat) returns (mine: nat)
      requires s < |sems| && Shaped(sems[s])
      ensures mine == Held(sems[s].locks[..sems[s].limit], whose)
    {
      var locks := sems[s].locks;
      var l := 0;
      mine := 0;
      while l < sems[s].limit
        invariant 0 <= l <= sems[s].limit
        invariant mine == Held(locks[..l], whose)
      {
        assert locks[..l + 1][..l] == locks[..l];
        if Locks(locks[l], whose) {
          mine := mine + 1;
        }
        l := l + 1;
      }
    }

    method DropSlots(whose: Whose, s: nat, want: int, status: Status) returns (st: Status)
      requires s < |sems| && Shaped(sems[s])
      modifies this
      ensures |sems| == |old(sems)|
      ensures var e := old(sems)[s];
              var w := Drop(e.locks, 0, e.limit, whose, 0, want);
              sems == old(sems)[s := e.(locks := w.locks)] && st == if w.done then Success else status
    {
      ghost var e := sems[s];
      ghost var before := sems;
      ghost var w := Drop(e.locks, 0, e.limit, whose, 0, want);
      st := status;
      var removed, left, l := 0, want, 0;
      while l < sems[s].limit
        invariant |sems| == |before| && 0 <= l <= e.limit
        invariant sems == before[s := e.(locks := sems[s].locks)]
        invariant |sems[s].locks| == |e.locks|
        invariant w == Drop(sems[s].locks, l, e.limit, whose, removed, left) && st == status
      {
        if Locks(sems[s].locks[l], whose) {
          var locks := sems[s].locks;
          sems := sems[s := sems[s].(locks := locks[l := locks[l].(locked := false)])];
          removed := removed + 1;
          left := left - 1;
          if left <= 0 {
            st := Success;
            break;
          }
        }
        l := l + 1;
      }
    }

    /** Unlock, post (the caller's own locks) and signal (anyone's). */
    method ReleaseLock(whose: Whose, s: nat, want: int, status: Status) returns (ok: bool, st: Status)
      requires Valid() && s < |sems| && want != 0 && !whose.OnlyOrAnonymous?
      modifies this
      ensures Valid()
      ensures var r := Release(old(sems)[s], whose, want, status);
              sems == old(sems)[s := r.entry] && ok == r.ok && st == r.status
      ensures whose.Only? ==> sems == Step(old(sems), Releasing(whose.node, s, want))
      ensures whose.Anyone? ==> forall who :: sems == Step(old(sems), Signalling(who, s, want))
    {
      hide GoodDb, Good, Held, Drop;
      ghost var before := sems;
      ok, st := true, status;
      if !sems[s].valid {
        ok, st := false, Invalid(sems[s].kind);
      } else {
        var mine := CountSlots(whose, s);
        if want < 0 || mine < want {
          ok, st := false, NotLocked(sems[s].kind);
        } else {
          sems := sems[s := sems[s].(numLocks := sems[s].numLocks - want)];
          st := DropSlots(whose, s, want, status);
        }
      }
      assert sems == before[s := Release(before[s], whose, want, status).entry];
      ReleaseKeeps(before, whose, s, want, status);
    }

    /** One attempt at a whole set; waiting for all, a miss gives back what the earlier members gave. */
    method AcquireLocks(who: Node, list: seq<nat>, want: int, waitall: bool) returns (total: int)
      requires Valid() && InRange(list, sems) && Real(who) && want >= 1
      modifies this
      ensures Valid()
      ensures (sems, total) == AcquireMany(old(sems), who, list, 0, want, waitall, 0)
      ensures sems == Step(old(sems), AcquiringMany(who, list, want, waitall))
    {
      hide GoodDb, Good, Acquire, Held;
      ghost var goal := AcquireMany(sems, who, list, 0, want, waitall, 0);
      ghost var n := |sems|;
      total := 0;
      var i := 0;
      while i < |list|
        invariant 0 <= i <= |list| && |sems| == n
        invariant Valid()
        invariant AcquireMany(sems, who, list, i, want, waitall, total) == goal
      {
        var added, _ := AcquireLock(who, list[i], want, Unset);
        if added != want {
          total := 0;
          if waitall {
            var j := 0;
            while j < i
              invariant 0 <= j <= i && |sems| == n
              invariant Valid()
              invariant Rollback(sems, who, list, j, i, want) == goal.0 && goal.1 == 0
            {
              var _, _ := ReleaseLock(Only(who), list[j], want, Unset);
              j := j + 1;
            }
            return;
          }
        } else {
          total := total + added;
          if !waitall && 0 < added {
            return;
          }
        }
        i := i + 1;
      }
    }

    /** Delete: the caller must own every slot, alone or with an anonymous holder of its domain. */
    method SemDelete(who: Node, s: nat) returns (ok: bool)
      requires Valid() && s < |sems|
      modifies this
      ensures Valid()
      ensures ok == MayDelete(old(sems)[s], who) && sems == old(sems)[s := Delete(old(sems)[s], who)]
      ensures sems == Step(old(sems), Deleting(who, s))
    {
      hide GoodDb, Good, Held;
      ghost var before := sems;
      var e := sems[s];
      ok := true;
      var mine := CountSlots(OnlyOrAnonymous(who), s);
      if mine != e.limit {
        ok := false;
      }
      if ok && sems[s].valid {
        sems := sems[s := sems[s].(valid := false)];
        if sems[s].extErr {
          sems := sems[s := sems[s].(deleted := true)];
        }
      }
      assert sems == before[s := Delete(before[s], who)];
      DeleteKeeps(before, who, s);
      GoodShaped(sems);
    }

    /** Create, behind the argument guards of the API. */
    method SemCreate(who: Node, kind: Kind, key: Option<int>, extErr: bool, numLocks: nat, limit: nat)
      returns (sem: Option<nat>, st: Status)
      requires Valid() && Real(who)
      modifies this
      ensures Valid()
      ensures !CreateGuard(numLocks, limit) ==> sems == old(sems) && sem == None && st == LockLimit
      ensures st == LockLimit <==> limit == 0 || limit > 256 || numLocks > limit
      ensures CreateGuard(numLocks, limit) ==>
                Created(sems, sem, st) == Create(old(sems), who, kind, key, extErr, numLocks, limit)
      ensures sems == Step(old(sems), Creating(who, kind, key, extErr, numLocks, limit))
    {
      hide GoodDb, Good, Held;
      sem := None;
      if limit == 0 || limit > MAX_SHARED_LOCKS || numLocks > limit {
        st := LockLimit;
        return;
      }
      CreateMeans(sems, who, kind, key, extErr, numLocks, limit);
      st := SemLimit;
      var s := 0;
      if key.Some? {
        while s < |sems| && !(sems[s].valid && sems[s].key == Id(key.value))
          invariant 0 <= s <= |sems|
          invariant FindKey(sems, Id(key.value), s) == FindKey(sems, Id(key.value), 0)
        {
          s := s + 1;
        }
        if s < |sems| {
          st := Exists(kind);
        }
      } else {
        s := |sems|;
      }
      if s == |sems| {
        s := 0;
        while s < |sems| && (sems[s].valid || sems[s].deleted)
          invariant 0 <= s <= |sems|
          invariant FindFree(sems, s) == FindFree(sems, 0)
        {
          s := s + 1;
        }
        if s < |sems| {
          var k := if key.Some? then Id(key.value) else Address(s);
          FillEntry(s, who, kind, k, extErr, numLocks, limit);
          sem, st := Some(s), Success;
        }
      }
      GoodShaped(sems);
    }

    // Zero the entry, then make its slots valid one by one; the first ones belong to the creator.
    method FillEntry(s: nat, who: Node, kind: Kind, key: Key, extErr: bool, numLocks: nat, limit: nat)
      requires s < |sems| && CreateGuard(numLocks, limit)
      modifies this
      ensures sems == old(sems)[s := Entry(kind, key, true, false, extErr, limit, numLocks, NewSlots(limit, numLocks, who))]
    {
      ghost var before := sems;
      sems := sems[s := ZeroEntry().(key := key, valid := true, limit := limit, kind := kind, extErr := extErr)];
      var l := 0;
      while l < limit
        invariant 0 <= l <= limit && |sems| == |before|
        invariant sems == before[s := Entry(kind, key, true, false, extErr, limit, if l < numLocks then l else numLocks, sems[s].locks)]
        invariant |sems[s].locks| == MAX_SHARED_LOCKS
        invariant forall k :: 0 <= k < MAX_SHARED_LOCKS ==>
                    sems[s].locks[k] == if k < l then NewSlots(limit, numLocks, who)[k] else ZERO_SLOT
      {
        var slot := sems[s].locks[l];
        slot := slot.(valid := true);
        if numLocks > l {
          slot := slot.(locked := true, owner := who);
          sems := sems[s := sems[s].(numLocks := sems[s].numLocks + 1)];
        }
        sems := sems[s := sems[s].(locks := sems[s].locks[l := slot])];
        l := l + 1;
      }
      assert sems[s].locks == NewSlots(limit, numLocks, who);
    }

    /** Lock one semaphore, yielding between attempts. */
    method SemLock(who: Node, s: nat, want: int, timeout: nat, schedule: seq<seq<Event>>, status: Status)
      returns (wait: Wait, st: Status)
      requires Valid() && Real(who) && Schedule(schedule, who)
      modifies this
      ensures Valid()
      ensures want == 0 ==> sems == old(sems) && wait == Granted && st == status
      ensures want != 0 && s >= |old(sems)| ==> sems == old(sems) && wait == Refused && st == status
      ensures want != 0 && s < |old(sems)| ==>
                Locking(sems, wait, st) == LockOne(old(sems), who, s, want, 0, timeout, 0, schedule, status)
    {
      hide GoodDb, Good, Acquire, Held, Run;
      st := status;
      if want == 0 {
        return Granted, st;
      }
      if s >= |sems| {
        return Refused, st;
      }
      ghost var goal := LockOne(sems, who, s, want, 0, timeout, 0, schedule, status);
      var rest := schedule;
      var need, got, time := want, 0, 0;
      while true
        invariant Valid() && s < |sems| && need != 0 && (want < 0 <==> need < 0) && (need > 0 ==> got == 0)
        invariant Schedule(rest, who)
        invariant LockOne(sems, who, s, need, got, timeout, time, rest, st) == goal
        decreases |rest|
      {
        time := time + 1;
        ghost var e := sems[s];
        if need > 0 {
          AcquireAllOrNothing(e, who, need, st) by { GoodAt(sems, s); }
        }
        ghost var was := st;
        var added;
        added, st := AcquireLock(who, s, need, st);
        got := got + added;
        if (0 > need && st == Success) || need == got {
          st := Success;
          return Granted, st;
        }
        if 0 < need {
          need := need - got;
        }
        if rest == [] {
          return Waiting, st;
        }
        var mine := rest[0];
        rest := rest[1..];
        Others(mine);
        if timeout != TIMEOUT_INFINITE && time >= timeout {
          if timeout != 1 {
            st := Timeout;
          }
          return Refused, st;
        }
      }
    }

    /** Lock a set of semaphores, yielding between attempts. */
    method SemLockMultiple(who: Node, list: seq<nat>, want: int, waitall: bool, timeout: nat,
                           schedule: seq<seq<Event>>, status: Status)
      returns (wait: Wait, st: Status)
      requires Valid() && Real(who) && want >= 1 && Schedule(schedule, who)
      modifies this
      ensures Valid()
      ensures !InRange(list, old(sems)) ==> sems == old(sems) && wait == Refused && st == status
      ensures InRange(list, old(sems)) ==>
                Locking(sems, wait, st) == LockMultiple(old(sems), who, list, want, waitall, timeout, 0, schedule, status)
    {
      hide GoodDb, Good, AcquireMany, Held, Run;
      st := status;
      var i, totalLocks := 0, 0;
      while i < |list|
        invariant 0 <= i <= |list| && totalLocks == want * i
        invariant forall k :: 0 <= k < i ==> list[k] < |sems|
      {
        if list[i] >= |sems| {
          return Refused, st;
        }
        totalLocks := totalLocks + want;
        i := i + 1;
      }
      ghost var goal := LockMultiple(sems, who, list, want, waitall, timeout, 0, schedule, status);
      var rest := schedule;
      var time := 0;
      while true
        invariant Valid() && InRange(list, sems) && st == status
        invariant Schedule(rest, who)
        invariant LockMultiple(sems, who, list, want, waitall, timeout, time, rest, st) == goal
        decreases |rest|
      {
        time := time + 1;
        var added := AcquireLocks(who, list, want, waitall);
        if (waitall && totalLocks == added) || (!waitall && 0 < added) {
          st := Success;
          return Granted, st;
        }
        if rest == [] {
          return Waiting, st;
        }
        var mine := rest[0];
        rest := rest[1..];
        Others(mine);
        if timeout != TIMEOUT_INFINITE && time >= timeout {
          if timeout != 1 {
            st := Timeout;
          }
          return Refused, st;
        }
      }
    }

    /** Delete through the API: collect every lock in one attempt, then retire the entry. */
    method MrapiSemDelete(who: Node, s: nat, yielded: seq<Event>, between: seq<Event>, status: Status)
      returns (st: Status)
      requires Valid() && s < |sems| && Real(who) && ByOthers(yielded, who) && ByOthers(between, who)
      modifies this
      ensures Valid()
      ensures (sems, st) == DeleteCall(old(sems), who, s, yielded, between, status)
    {
      hide GoodDb, Good, Held, Run, LockOne, Delete;
      var _, _ := SemLock(who, s, LOCKS_ALL, 0, [yielded], status);
      Others(between);
      var ok := SemDelete(who, s);
      st := if ok then Success else SemLocked;
    }
  }

  // The status only tells a caller what happened before.
  lemma SameForAnyStatus(e: Entry, who: Node, want: int, status: Status)
    requires Shaped(e)
    ensures Acquire(e, who, want, status).entry == Acquire(e, who, want, Unset).entry
  {
    hide Held, Take, Collect;
  }
}
