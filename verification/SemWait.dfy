/**
  * When a waiting call ends: a set is acquired at the first attempt at which it fits, and the call gives up
  * after as many attempts as its timeout says, whatever the other nodes do at each yield.
  */
module SemWait {
  import opened SemSpec
  import opened SemEntry
  import opened SemRuns

  // ---- which attempts succeed ----

  // Every semaphore has room for the request, as often as it is on the list.
  ghost predicate AllFit(db: Db, list: seq<nat>, want: int) {
    forall s :: 0 <= s < |db| ==> db[s].numLocks + want * Times(list, s) <= db[s].limit
  }

  // The counters after the first i requests of an attempt.
  ghost predicate Counted(db0: Db, db: Db, list: seq<nat>, want: int) {
    && |db| == |db0|
    && forall s :: 0 <= s < |db| ==> db[s].limit == db0[s].limit && db[s].numLocks == db0[s].numLocks + want * Times(list, s)
  }

  lemma TimesGrow(list: seq<nat>, i: nat, s: nat)
    requires i <= |list|
    ensures Times(list[..i], s) <= Times(list, s)
  {
    assert list == list[..i] + list[i..];
  }

  lemma CountedNext(db0: Db, db: Db, db': Db, list: seq<nat>, i: nat, want: int)
    requires i < |list| && Counted(db0, db, list[..i], want) && |db'| == |db| && list[i] < |db|
    requires db' == db[list[i] := db'[list[i]]]
    requires db'[list[i]].limit == db[list[i]].limit && db'[list[i]].numLocks == db[list[i]].numLocks + want
    ensures Counted(db0, db', list[..i + 1], want)
  {
    hide Times;
    forall s | 0 <= s < |db|
      ensures db'[s].limit == db0[s].limit && db'[s].numLocks == db0[s].numLocks + want * Times(list[..i + 1], s)
    {
      TimesStep(list, i, s);
      assert want * (Times(list[..i], s) + 1) == want * Times(list[..i], s) + want;
    }
  }

  // A request that has no room left shows that the set does not fit.
  lemma NoRoom(db0: Db, db: Db, list: seq<nat>, i: nat, want: int)
    requires i < |list| && Counted(db0, db, list[..i], want) && list[i] < |db| && want >= 1
    requires !Fits(db[list[i]], want)
    ensures !AllFit(db0, list, want)
  {
    hide Times;
    var s := list[i];
    TimesStep(list, i, s);
    TimesGrow(list, i + 1, s);
    assert want * Times(list, s) >= want * Times(list[..i + 1], s) == want * Times(list[..i], s) + want;
  }

  lemma RoomTaken(db0: Db, db: Db, list: seq<nat>, want: int)
    requires GoodDb(db) && Counted(db0, db, list, want)
    ensures AllFit(db0, list, want)
  {
    hide Held, Times;
    forall s | 0 <= s < |db|
      ensures db0[s].numLocks + want * Times(list, s) <= db0[s].limit
    {
      GoodAt(db, s);
      HeldInLimit(db[s], Anyone);
    }
  }

  lemma {:induction false} FitFrom(db0: Db, db: Db, who: Node, list: seq<nat>, i: nat, want: int)
    requires GoodDb(db) && AllShaped(db) && InRange(list, db) && i <= |list| && Real(who) && want >= 1
    requires Counted(db0, db, list[..i], want)
    ensures AcquireMany(db, who, list, i, want, true, want * i).1 == want * |list| <==> AllFit(db0, list, want)
    decreases |list| - i
  {
    hide Held, Good, Times, Acquire, Rollback, GoodDb, Counted, AllFit, Holding, OthersHold;
    if i < |list| {
      AcquireShaped(db[list[i]], who, want, Unset);
      AttemptMeans(db, who, list[i], want);
      GoodAt(db, list[i]);
      AcquireAllOrNothing(db[list[i]], who, want, Unset);
      var db1 := db[list[i] := Acquire(db[list[i]], who, want, Unset).entry];
      if Fits(db[list[i]], want) {
        CountedNext(db0, db, db1, list, i, want);
        assert want * i + want == want * (i + 1);
        FitFrom(db0, db1, who, list, i + 1, want);
      } else {
        NoRoom(db0, db, list, i, want);
        assert want * |list| > 0;
      }
    } else {
      assert list[..i] == list;
      RoomTaken(db0, db, list, want);
    }
  }

  // What a set call asks for.
  ghost predicate Satisfiable(db: Db, list: seq<nat>, want: int, waitall: bool)
    requires InRange(list, db)
  {
    if waitall then AllFit(db, list, want) else exists i :: 0 <= i < |list| && Fits(db[list[i]], want)
  }

  /** An attempt at a set succeeds exactly if every semaphore on the list has room for all that is asked of it,
    * or, for any of the set, if one has room for the request. */
  lemma AttemptSucceeds(db: Db, who: Node, list: seq<nat>, want: int, waitall: bool)
    requires GoodDb(db) && AllShaped(db) && InRange(list, db) && Real(who) && want >= 1
    ensures Enough(AcquireMany(db, who, list, 0, want, waitall, 0).1, want, |list|, waitall)
            <==> Satisfiable(db, list, want, waitall)
  {
    hide Held, Good, Times, AcquireMany, GoodDb, Fits, AllFit;
    if waitall {
      NothingCounted(db, list, want);
      FitFrom(db, db, who, list, 0, want);
    } else {
      AcquireManyAny(db, who, list, 0, want);
    }
  }

  lemma NothingCounted(db: Db, list: seq<nat>, want: int)
    ensures Counted(db, db, list[..0], want)
  {
    assert list[..0] == [];
    TimesNone();
  }

  // ---- when a call ends ----

  // How many attempts a call has left at a time.
  function Patience(timeout: nat, time: nat): nat {
    if timeout <= time + 1 then 1 else timeout - time
  }

  /** The database at the k-th attempt, if the ones before it fail. */
  function AtAttempt(db: Db, who: Node, list: seq<nat>, want: int, waitall: bool, schedule: seq<seq<Event>>, k: nat): (r: Db)
    requires AllShaped(db) && InRange(list, db) && k <= |schedule|
    ensures AllShaped(r) && |r| == |db|
    decreases k
  {
    if k == 0 then db
    else
      var db1 := Run(AcquireMany(db, who, list, 0, want, waitall, 0).0, schedule[0]);
      AtAttempt(db1, who, list, want, waitall, schedule[1..], k - 1)
  }

  /** How a set call ends: granted at the first attempt at which the set can be had, refused after as many
    * attempts as the timeout allows, one at least, and otherwise waiting still. */
  ghost predicate EndsAt(db: Db, who: Node, list: seq<nat>, want: int, waitall: bool, timeout: nat, time: nat,
                         schedule: seq<seq<Event>>, status: Status, r: Locking, k: nat)
    requires AllShaped(db) && InRange(list, db)
  {
    && k <= |schedule|
    && (forall j :: 0 <= j < k ==> !Satisfiable(AtAttempt(db, who, list, want, waitall, schedule, j), list, want, waitall))
    && var last := AtAttempt(db, who, list, want, waitall, schedule, k);
       match r.wait
       case Granted =>
         && Satisfiable(last, list, want, waitall) && (timeout != TIMEOUT_INFINITE ==> k < Patience(timeout, time))
         && r.db == AcquireMany(last, who, list, 0, want, waitall, 0).0 && r.status == Success
       case Waiting =>
         && !Satisfiable(last, list, want, waitall) && (timeout != TIMEOUT_INFINITE ==> k < Patience(timeout, time))
         && k == |schedule|
       case Refused =>
         && timeout != TIMEOUT_INFINITE && k == Patience(timeout, time)
         && r.db == last && r.status == if timeout != 1 then Timeout else status
  }

  lemma {:induction false} SetCallEnds(db: Db, who: Node, list: seq<nat>, want: int, waitall: bool, timeout: nat, time: nat,
                                       schedule: seq<seq<Event>>, status: Status) returns (k: nat)
    requires GoodDb(db) && AllShaped(db) && InRange(list, db) && Real(who) && want >= 1 && Schedule(schedule, who)
    ensures EndsAt(db, who, list, want, waitall, timeout, time, schedule, status,
                   LockMultiple(db, who, list, want, waitall, timeout, time, schedule, status), k)
    decreases |schedule|
  {
    hide GoodDb, Held, AcquireMany, Run, Enough, Satisfiable, EndsAt;
    AttemptSucceeds(db, who, list, want, waitall);
    var a := AcquireMany(db, who, list, 0, want, waitall, 0);
    if Enough(a.1, want, |list|, waitall) || schedule == [] {
      k := 0;
      EndsNow(db, who, list, want, waitall, timeout, time, schedule, status);
    } else {
      AttemptKeeps(db, who, list, want, waitall);
      RunKeeps(a.0, schedule[0]);
      var db1 := Run(a.0, schedule[0]);
      if timeout == TIMEOUT_INFINITE || time + 1 < timeout {
        k := SetCallEnds(db1, who, list, want, waitall, timeout, time + 1, schedule[1..], status);
        EndsLater(db, who, list, want, waitall, timeout, time, schedule, status, k);
        k := k + 1;
      } else {
        k := 1;
        EndsRefused(db, who, list, want, waitall, timeout, time, schedule, status);
      }
    }
  }

  lemma AttemptKeeps(db: Db, who: Node, list: seq<nat>, want: int, waitall: bool)
    requires GoodDb(db) && AllShaped(db) && InRange(list, db) && Real(who) && want >= 1
    ensures GoodDb(AcquireMany(db, who, list, 0, want, waitall, 0).0)
  {
    hide GoodDb, Held, AcquireMany, Times, Gained, OthersHold;
    if waitall {
      AcquireManyAll(db, who, list, want);
    } else {
      AcquireManyAny(db, who, list, 0, want);
    }
  }

  lemma EndsNow(db: Db, who: Node, list: seq<nat>, want: int, waitall: bool, timeout: nat, time: nat,
                schedule: seq<seq<Event>>, status: Status)
    requires AllShaped(db) && InRange(list, db)
    requires Enough(AcquireMany(db, who, list, 0, want, waitall, 0).1, want, |list|, waitall)
             <==> Satisfiable(db, list, want, waitall)
    requires Satisfiable(db, list, want, waitall) || schedule == []
    ensures EndsAt(db, who, list, want, waitall, timeout, time, schedule, status,
                   LockMultiple(db, who, list, want, waitall, timeout, time, schedule, status), 0)
  {
    hide AcquireMany, Run, Enough, Satisfiable;
  }

  lemma EndsRefused(db: Db, who: Node, list: seq<nat>, want: int, waitall: bool, timeout: nat, time: nat,
                    schedule: seq<seq<Event>>, status: Status)
    requires AllShaped(db) && InRange(list, db) && schedule != []
    requires Enough(AcquireMany(db, who, list, 0, want, waitall, 0).1, want, |list|, waitall)
             <==> Satisfiable(db, list, want, waitall)
    requires !Satisfiable(db, list, want, waitall) && timeout != TIMEOUT_INFINITE && time + 1 >= timeout
    ensures EndsAt(db, who, list, want, waitall, timeout, time, schedule, status,
                   LockMultiple(db, who, list, want, waitall, timeout, time, schedule, status), 1)
  {
    hide AcquireMany, Run, Enough, Satisfiable;
  }

  lemma EndsLater(db: Db, who: Node, list: seq<nat>, want: int, waitall: bool, timeout: nat, time: nat,
                  schedule: seq<seq<Event>>, status: Status, k: nat)
    requires AllShaped(db) && InRange(list, db) && schedule != []
    requires Enough(AcquireMany(db, who, list, 0, want, waitall, 0).1, want, |list|, waitall)
             <==> Satisfiable(db, list, want, waitall)
    requires !Satisfiable(db, list, want, waitall) && (timeout == TIMEOUT_INFINITE || time + 1 < timeout)
    requires var db1 := Run(AcquireMany(db, who, list, 0, want, waitall, 0).0, schedule[0]);
             EndsAt(db1, who, list, want, waitall, timeout, time + 1, schedule[1..], status,
                    LockMultiple(db1, who, list, want, waitall, timeout, time + 1, schedule[1..], status), k)
    ensures EndsAt(db, who, list, want, waitall, timeout, time, schedule, status,
                   LockMultiple(db, who, list, want, waitall, timeout, time, schedule, status), k + 1)
  {
    hide AcquireMany, Run, Enough, Satisfiable;
    var db1 := Run(AcquireMany(db, who, list, 0, want, waitall, 0).0, schedule[0]);
    assert Patience(timeout, time + 1) + 1 == Patience(timeout, time) || timeout == TIMEOUT_INFINITE;
    forall j | 0 <= j < k + 1
      ensures !Satisfiable(AtAttempt(db, who, list, want, waitall, schedule, j), list, want, waitall)
    {
      if j > 0 {
        assert AtAttempt(db, who, list, want, waitall, schedule, j)
            == AtAttempt(db1, who, list, want, waitall, schedule[1..], j - 1);
      }
    }
  }

  // ---- one semaphore ----

  // What a lock call needs: room for its request, or, asking for every lock, that no other node holds one,
  // or a status variable that says success beforehand.
  ghost predicate Lockable(e: Entry, who: Node, want: int, status: Status) {
    if want >= 1 then Fits(e, want) else (e.limit > 0 && OursOnly(e, who)) || status == Success
  }

  /** The database at the k-th attempt at one semaphore, if the ones before it fail. */
  function AtTry(db: Db, who: Node, s: nat, want: int, schedule: seq<seq<Event>>, k: nat): (r: Db)
    requires AllShaped(db) && s < |db| && k <= |schedule|
    ensures AllShaped(r) && |r| == |db|
    decreases k
  {
    if k == 0 then db
    else
      AcquireShaped(db[s], who, want, Unset);
      AtTry(Run(db[s := Acquire(db[s], who, want, Unset).entry], schedule[0]), who, s, want, schedule[1..], k - 1)
  }

  /** How a lock call ends: like a set call, with the status of the last attempt when it is a mere try. */
  ghost predicate OneEndsAt(db: Db, who: Node, s: nat, want: int, timeout: nat, time: nat,
                            schedule: seq<seq<Event>>, status: Status, r: Locking, k: nat)
    requires AllShaped(db) && s < |db|
  {
    && k <= |schedule|
    && (forall j :: 0 <= j < k ==> !Lockable(AtTry(db, who, s, want, schedule, j)[s], who, want, status))
    && var last := AtTry(db, who, s, want, schedule, k);
       match r.wait
       case Granted =>
         && Lockable(last[s], who, want, status) && (timeout != TIMEOUT_INFINITE ==> k < Patience(timeout, time))
         && r.db == last[s := Acquire(last[s], who, want, Unset).entry] && r.status == Success
       case Waiting =>
         && !Lockable(last[s], who, want, status) && (timeout != TIMEOUT_INFINITE ==> k < Patience(timeout, time))
         && k == |schedule|
       case Refused =>
         && timeout != TIMEOUT_INFINITE && k == Patience(timeout, time) && r.db == last
         && r.status == if timeout != 1 then Timeout
                        else if want < 0 then status
                        else Locked(AtTry(db, who, s, want, schedule, k - 1)[s].kind)
  }

  // One attempt: it does not depend on the status, and tells by count and status whether it succeeded.
  lemma TryMeans(db: Db, who: Node, s: nat, want: int, status: Status)
    requires GoodDb(db) && AllShaped(db) && s < |db| && Real(who) && want != 0
    ensures var a := Acquire(db[s], who, want, status);
            && GoodDb(db[s := a.entry]) && AllShaped(db[s := a.entry])
            && a.entry == Acquire(db[s], who, want, Unset).entry
            && (want >= 1 ==> a.added == if Lockable(db[s], who, want, status) then want else 0)
            && (want >= 1 && !Lockable(db[s], who, want, status) ==> a.status == Locked(db[s].kind))
            && (want < 0 ==> a.added >= 0 && (a.status == Success <==> Lockable(db[s], who, want, status)))
            && (want < 0 && a.status != Success ==> a.status == status)
  {
    hide Held, Good, Take, Collect;
    GoodAt(db, s);
    if want < 0 {
      AcquireEvery(db[s], who, want, status);
    } else {
      AcquireAllOrNothing(db[s], who, want, status);
    }
    AcquireKeeps(db, who, s, want, status);
  }

  lemma {:induction false} LockCallEnds(db: Db, who: Node, s: nat, want: int, got: int, timeout: nat, time: nat,
                                        schedule: seq<seq<Event>>, status: Status) returns (k: nat)
    requires GoodDb(db) && AllShaped(db) && s < |db| && Real(who) && want != 0 && Schedule(schedule, who)
    requires got >= 0 && (want >= 1 ==> got == 0)
    ensures OneEndsAt(db, who, s, want, timeout, time, schedule, status,
                      LockOne(db, who, s, want, got, timeout, time, schedule, status), k)
    decreases |schedule|
  {
    hide GoodDb, Held, Acquire, Run, Lockable, OneEndsAt, Fits, OursOnly;
    TryMeans(db, who, s, want, status);
    var a := Acquire(db[s], who, want, status);
    if Lockable(db[s], who, want, status) || schedule == [] {
      k := 0;
      OneEndsNow(db, who, s, want, got, timeout, time, schedule, status);
    } else {
      var db0 := db[s := a.entry];
      RunKeeps(db0, schedule[0]);
      OneGoesOn(db, who, s, want, got, timeout, time, schedule, status);
      if timeout == TIMEOUT_INFINITE || time + 1 < timeout {
        var got1 := if want < 0 then got + a.added else 0;
        k := LockCallEnds(Run(db0, schedule[0]), who, s, want, got1, timeout, time + 1, schedule[1..], a.status);
        OneEndsLater(db, who, s, want, got, timeout, time, schedule, status, k);
        k := k + 1;
      } else {
        k := 1;
        OneEndsRefused(db, who, s, want, got, timeout, time, schedule, status);
      }
    }
  }

  // What the call does when its first attempt fails.
  lemma OneGoesOn(db: Db, who: Node, s: nat, want: int, got: int, timeout: nat, time: nat,
                  schedule: seq<seq<Event>>, status: Status)
    requires AllShaped(db) && s < |db| && want != 0 && schedule != [] && got >= 0 && (want >= 1 ==> got == 0)
    requires var a := Acquire(db[s], who, want, status);
             && AllShaped(db[s := a.entry])
             && (want >= 1 ==> a.added == 0) && (want < 0 ==> a.added >= 0 && a.status != Success)
    ensures var a := Acquire(db[s], who, want, status);
            var db2 := Run(db[s := a.entry], schedule[0]);
            LockOne(db, who, s, want, got, timeout, time, schedule, status)
            == if timeout != TIMEOUT_INFINITE && time + 1 >= timeout
               then Locking(db2, Refused, if timeout != 1 then Timeout else a.status)
               else LockOne(db2, who, s, want, if want < 0 then got + a.added else 0, timeout, time + 1, schedule[1..], a.status)
  {
    hide Acquire, Run;
  }

  lemma OneEndsNow(db: Db, who: Node, s: nat, want: int, got: int, timeout: nat, time: nat,
                   schedule: seq<seq<Event>>, status: Status)
    requires GoodDb(db) && AllShaped(db) && s < |db| && Real(who) && want != 0
    requires got >= 0 && (want >= 1 ==> got == 0)
    requires Lockable(db[s], who, want, status) || schedule == []
    ensures OneEndsAt(db, who, s, want, timeout, time, schedule, status,
                      LockOne(db, who, s, want, got, timeout, time, schedule, status), 0)
  {
    hide Acquire, Run, GoodDb, Held, OursOnly;
    TryMeans(db, who, s, want, status);
  }

  lemma OneEndsRefused(db: Db, who: Node, s: nat, want: int, got: int, timeout: nat, time: nat,
                       schedule: seq<seq<Event>>, status: Status)
    requires GoodDb(db) && AllShaped(db) && s < |db| && Real(who) && want != 0 && schedule != []
    requires got >= 0 && (want >= 1 ==> got == 0)
    requires !Lockable(db[s], who, want, status) && timeout != TIMEOUT_INFINITE && time + 1 >= timeout
    ensures OneEndsAt(db, who, s, want, timeout, time, schedule, status,
                      LockOne(db, who, s, want, got, timeout, time, schedule, status), 1)
  {
    hide Acquire, Run, GoodDb, Held, OursOnly, LockOne;
    TryMeans(db, who, s, want, status);
    OneGoesOn(db, who, s, want, got, timeout, time, schedule, status);
  }

  lemma OneEndsLater(db: Db, who: Node, s: nat, want: int, got: int, timeout: nat, time: nat,
                     schedule: seq<seq<Event>>, status: Status, k: nat)
    requires GoodDb(db) && AllShaped(db) && s < |db| && Real(who) && want != 0 && schedule != []
    requires got >= 0 && (want >= 1 ==> got == 0)
    requires !Lockable(db[s], who, want, status) && (timeout == TIMEOUT_INFINITE || time + 1 < timeout)
    requires var a := Acquire(db[s], who, want, status);
             && AllShaped(db[s := a.entry])
             && var db1 := Run(db[s := a.entry], schedule[0]);
                OneEndsAt(db1, who, s, want, timeout, time + 1, schedule[1..], a.status,
                          LockOne(db1, who, s, want, if want < 0 then got + a.added else 0, timeout, time + 1, schedule[1..],
                                  a.status), k)
    ensures OneEndsAt(db, who, s, want, timeout, time, schedule, status,
                      LockOne(db, who, s, want, got, timeout, time, schedule, status), k + 1)
  {
    hide Acquire, Run, GoodDb, Held, OursOnly, LockOne, Fits;
    TryMeans(db, who, s, want, status);
    OneGoesOn(db, who, s, want, got, timeout, time, schedule, status);
    var a := Acquire(db[s], who, want, status);
    var db1 := Run(db[s := a.entry], schedule[0]);
    assert Patience(timeout, time + 1) + 1 == Patience(timeout, time) || timeout == TIMEOUT_INFINITE;
    forall j | 0 <= j < k + 1
      ensures !Lockable(AtTry(db, who, s, want, schedule, j)[s], who, want, status)
    {
      if j > 0 {
        assert AtTry(db, who, s, want, schedule, j) == AtTry(db1, who, s, want, schedule[1..], j - 1);
      }
    }
  }
}
