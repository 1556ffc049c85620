/**
  * The semaphore database over every run: the counters and owners stay right whatever the nodes do, a
  * set of semaphores is acquired all or nothing although other nodes run at every yield, and a
  * semaphore is only ever retired by the node that owns all of it.
  */
module SemRuns {
  import opened SemSpec
  import opened SemEntry

  /** Every entry is consistent, and no two semaphores in use share a key. */
  predicate GoodDb(db: Db) {
    && (forall s :: 0 <= s < |db| ==> Good(db[s]))
    && (forall s, t :: 0 <= s < t < |db| && db[s].valid && db[t].valid ==> db[s].key != db[t].key)
    && (forall s :: 0 <= s < |db| && db[s].valid && db[s].key.Address? ==> db[s].key.entry == s)
  }

  // How many locks of semaphore s a node holds; a retired semaphore has none to hold.
  function Holding(db: Db, who: Node, s: nat): nat
    requires s < |db|
  {
    if db[s].valid then Held(db[s].locks, Only(who)) else 0
  }

  lemma GoodShaped(db: Db)
    requires GoodDb(db)
    ensures AllShaped(db)
  {
    hide Held;
  }

  lemma GoodAt(db: Db, s: nat)
    requires GoodDb(db) && s < |db|
    ensures Good(db[s])
  {
    hide Good;
  }

  lemma EmptyGood()
    ensures GoodDb(EmptyDb())
  {
    ZeroEntryGood();
  }

  // Replacing the locks of one entry.
  lemma SetLocks(db: Db, s: nat, e: Entry)
    requires GoodDb(db) && s < |db| && Good(e) && SameButLocks(db[s], e)
    ensures GoodDb(db[s := e])
  {
    hide Good;
  }

  lemma AcquireKeeps(db: Db, who: Node, s: nat, want: int, status: Status)
    requires GoodDb(db) && s < |db| && Shaped(db[s]) && Real(who) && want != 0
    ensures var db' := db[s := Acquire(db[s], who, want, status).entry];
            GoodDb(db') && AllShaped(db')
  {
    hide Good, Held, Acquire;
    if want < 0 {
      AcquireEvery(db[s], who, want, status);
    } else {
      AcquireAllOrNothing(db[s], who, want, status);
    }
    var e := Acquire(db[s], who, want, status).entry;
    SetLocks(db, s, e);
    GoodShaped(db[s := e]);
  }

  lemma ReleaseKeeps(db: Db, whose: Whose, s: nat, want: int, status: Status)
    requires GoodDb(db) && s < |db| && Shaped(db[s]) && want != 0 && !whose.OnlyOrAnonymous?
    ensures var db' := db[s := Release(db[s], whose, want, status).entry];
            GoodDb(db') && AllShaped(db')
  {
    hide Good, Held, Release;
    ReleaseMeans(db[s], whose, want, status);
    var e := Release(db[s], whose, want, status).entry;
    SetLocks(db, s, e);
    GoodShaped(db[s := e]);
  }

  // ---- creating ----

  lemma {:induction false} FindKeyMeans(db: Db, key: Key, s: nat)
    requires s <= |db|
    ensures var f := FindKey(db, key, s);
            && s <= f <= |db|
            && (f < |db| ==> db[f].valid && db[f].key == key)
            && forall t :: s <= t < f ==> !(db[t].valid && db[t].key == key)
    decreases |db| - s
  {
    if s < |db| && !(db[s].valid && db[s].key == key) {
      FindKeyMeans(db, key, s + 1);
    }
  }

  lemma {:induction false} FindFreeMeans(db: Db, s: nat)
    requires s <= |db|
    ensures var f := FindFree(db, s);
            && s <= f <= |db|
            && (f < |db| ==> !db[f].valid && !db[f].deleted)
            && forall t :: s <= t < f ==> db[t].valid || db[t].deleted
    decreases |db| - s
  {
    if s < |db| && (db[s].valid || db[s].deleted) {
      FindFreeMeans(db, s + 1);
    }
  }

  /** Creation fails only for a key in use or a full database; otherwise exactly one entry changes, the first
    * that was not in use and not kept for error reports. It is stored under the key and with the kind and the
    * error checking asked for, and its creator owns the initial locks. */
  lemma CreateMeans(db: Db, who: Node, kind: Kind, key: Option<int>, extErr: bool, numLocks: nat, limit: nat)
    requires GoodDb(db) && Real(who) && CreateGuard(numLocks, limit)
    ensures var c := Create(db, who, kind, key, extErr, numLocks, limit);
            && GoodDb(c.db) && |c.db| == |db|
            && (c.sem.None? ==> c.db == db)
            && (c.status == Exists(kind) <==>
                  key.Some? && exists s :: 0 <= s < |db| && db[s].valid && db[s].key == Id(key.value))
            && (c.status == SemLimit <==>
                  && (key.None? || forall s :: 0 <= s < |db| ==> !(db[s].valid && db[s].key == Id(key.value)))
                  && forall s :: 0 <= s < |db| ==> db[s].valid || db[s].deleted)
            && (c.sem.Some? <==> c.status == Success)
            && (c.sem.Some? ==>
                  var s := c.sem.value;
                  && s < |db| && !db[s].valid && !db[s].deleted
                  && (forall t :: 0 <= t < s ==> db[t].valid || db[t].deleted)
                  && c.db == db[s := c.db[s]] && c.db[s].valid && !c.db[s].deleted && c.db[s].limit == limit
                  && c.db[s].kind == kind && c.db[s].extErr == extErr
                  && c.db[s].key == (if key.Some? then Id(key.value) else Address(s))
                  && Holding(c.db, who, s) == numLocks
                  && forall other :: other != who ==> Holding(c.db, other, s) == 0)
  {
    hide Held, NewSlots;
    if key.Some? {
      FindKeyMeans(db, Id(key.value), 0);
    }
    FindFreeMeans(db, 0);
    NewSlotsMeans(limit, numLocks, who);
    var s := FindFree(db, 0);
    if s < |db| {
      NewEntryGood(kind, if key.Some? then Id(key.value) else Address(s), extErr, limit, numLocks, who);
    }
  }

  lemma NewEntryGood(kind: Kind, key: Key, extErr: bool, limit: nat, numLocks: nat, who: Node)
    requires Real(who) && CreateGuard(numLocks, limit)
    ensures Good(Entry(kind, key, true, false, extErr, limit, numLocks, NewSlots(limit, numLocks, who)))
  {
    hide Held;
    NewSlotsMeans(limit, numLocks, who);
  }

  // ---- a set of semaphores ----

  // Only locks of `who` came or went.
  ghost predicate OthersHold(db: Db, db': Db, who: Node) {
    && |db'| == |db|
    && forall s :: 0 <= s < |db| ==> SameButLocks(db[s], db'[s]) && OthersKeep(db[s].locks, db'[s].locks, who)
  }

  function Times(list: seq<nat>, s: nat): nat {
    multiset(list)[s]
  }

  lemma TimesNone()
    ensures forall s :: Times([], s) == 0
  {
  }

  lemma TimesStep(list: seq<nat>, i: nat, s: nat)
    requires i < |list|
    ensures Times(list[..i + 1], s) == Times(list[..i], s) + if list[i] == s then 1 else 0
  {
    assert list[..i + 1] == list[..i] + [list[i]];
  }

  lemma TimesDrop(list: seq<nat>, j: nat, i: nat, s: nat)
    requires j < i <= |list|
    ensures Times(list[j..i], s) == Times(list[j + 1..i], s) + if list[j] == s then 1 else 0
  {
    assert list[j..i] == [list[j]] + list[j + 1..i];
  }

  // What `who` holds went from `db` to `db'` by `want` for each occurrence on the list.
  ghost predicate Gained(db: Db, db': Db, who: Node, list: seq<nat>, want: int) {
    && |db'| == |db|
    && forall s :: 0 <= s < |db| ==> Holding(db', who, s) == Holding(db, who, s) + want * Times(list, s)
  }

  lemma GainedStep(db: Db, mid: Db, db': Db, who: Node, list: seq<nat>, i: nat, want: int)
    requires i < |list| && Gained(db, mid, who, list[..i], want)
    requires |db'| == |mid| && list[i] < |mid|
    requires forall s :: 0 <= s < |mid| && s != list[i] ==> Holding(db', who, s) == Holding(mid, who, s)
    requires Holding(db', who, list[i]) == Holding(mid, who, list[i]) + want
    ensures Gained(db, db', who, list[..i + 1], want)
  {
    hide Holding, Times;
    forall s | 0 <= s < |db|
      ensures Holding(db', who, s) == Holding(db, who, s) + want * Times(list[..i + 1], s)
    {
      TimesStep(list, i, s);
      assert want * (Times(list[..i], s) + 1) == want * Times(list[..i], s) + want;
    }
  }

  // Giving back what was gained on list[j..i], even from other slots than were taken.
  lemma {:induction false} RollbackMeans(db: Db, who: Node, list: seq<nat>, j: nat, i: nat, want: int)
    requires GoodDb(db) && AllShaped(db) && InRange(list, db) && j <= i <= |list| && want >= 1
    requires forall s :: 0 <= s < |db| ==> Holding(db, who, s) >= want * Times(list[j..i], s)
    ensures var r := Rollback(db, who, list, j, i, want);
            && GoodDb(r) && OthersHold(db, r, who) && Gained(r, db, who, list[j..i], want)
    decreases i - j
  {
    hide Held, Good, Times, Release;
    if j < i {
      var s0 := list[j];
      var e := db[s0];
      TimesDrop(list, j, i, s0);
      assert want * (Times(list[j + 1..i], s0) + 1) == want * Times(list[j + 1..i], s0) + want;
      assert Holding(db, who, s0) >= want by {
        assert want * Times(list[j + 1..i], s0) >= 0;
      }
      ReleaseMeans(e, Only(who), want, Unset);
      var e1 := Release(e, Only(who), want, Unset).entry;
      var db1 := db[s0 := e1];
      SetLocks(db, s0, e1);
      ReleaseShaped(e, Only(who), want, Unset);
      forall s | 0 <= s < |db|
        ensures Holding(db1, who, s) + (if s == s0 then want else 0) == Holding(db, who, s)
        ensures want * Times(list[j..i], s) == want * Times(list[j + 1..i], s) + (if s == s0 then want else 0)
      {
        TimesDrop(list, j, i, s);
        assert want * (Times(list[j + 1..i], s) + 1) == want * Times(list[j + 1..i], s) + want;
      }
      RollbackMeans(db1, who, list, j + 1, i, want);
    } else {
      assert list[j..i] == [];
      TimesNone();
    }
  }

  // One attempt on one member of the set.
  lemma AttemptMeans(db: Db, who: Node, s0: nat, want: int)
    requires GoodDb(db) && s0 < |db| && Real(who) && want >= 1
    ensures var a := Acquire(db[s0], who, want, Unset);
            var db1 := db[s0 := a.entry];
            && GoodDb(db1) && AllShaped(db1) && OthersHold(db, db1, who)
            && (a.added == want || (a.added == 0 && db1 == db))
            && (a.added == want ==>
                  && (forall s :: 0 <= s < |db| && s != s0 ==> Holding(db1, who, s) == Holding(db, who, s))
                  && Holding(db1, who, s0) == Holding(db, who, s0) + want)
            && (a.added == want <==> Fits(db[s0], want))
  {
    hide Held, Good, Acquire;
    GoodShaped(db);
    AcquireAllOrNothing(db[s0], who, want, Unset);
    var e := Acquire(db[s0], who, want, Unset).entry;
    SetLocks(db, s0, e);
    GoodShaped(db[s0 := e]);
  }

  lemma OthersTrans(db: Db, mid: Db, db': Db, who: Node)
    requires OthersHold(db, mid, who) && OthersHold(mid, db', who)
    ensures OthersHold(db, db', who)
  {
    hide Held;
  }

  // The walk over the set, waiting for all: from a state that already holds the first i requests.
  lemma {:induction false} AcquireAllFrom(db0: Db, db: Db, who: Node, list: seq<nat>, i: nat, want: int)
    requires GoodDb(db) && AllShaped(db) && InRange(list, db) && i <= |list| && Real(who) && want >= 1
    requires |db0| == |db| && OthersHold(db0, db, who) && Gained(db0, db, who, list[..i], want)
    ensures var r := AcquireMany(db, who, list, i, want, true, want * i);
            && GoodDb(r.0) && OthersHold(db0, r.0, who)
            && ( || (r.1 == want * |list| && Gained(db0, r.0, who, list, want))
                 || (r.1 == 0 && i < |list| && Gained(db0, r.0, who, [], want)))
    decreases |list| - i
  {
    hide Held, Good, Times, Holding, Acquire, Rollback, GoodDb;
    if i < |list| {
      AcquireShaped(db[list[i]], who, want, Unset);
      AttemptMeans(db, who, list[i], want);
      var a := Acquire(db[list[i]], who, want, Unset);
      var db1 := db[list[i] := a.entry];
      OthersTrans(db0, db, db1, who);
      if a.added == want {
        GainedStep(db0, db, db1, who, list, i, want);
        assert want * i + want == want * (i + 1);
        AcquireAllFrom(db0, db1, who, list, i + 1, want);
      } else {
        RollbackHolds(db0, db, who, list, i, want);
        RollbackMeans(db, who, list, 0, i, want);
        OthersTrans(db0, db, Rollback(db, who, list, 0, i, want), who);
        GainedBack(db0, db, Rollback(db, who, list, 0, i, want), who, list[..i], want);
      }
    } else {
      assert list[..i] == list;
    }
  }

  lemma RollbackHolds(db0: Db, db: Db, who: Node, list: seq<nat>, i: nat, want: int)
    requires i <= |list| && Gained(db0, db, who, list[..i], want)
    ensures forall s :: 0 <= s < |db| ==> Holding(db, who, s) >= want * Times(list[0..i], s)
  {
    hide Held, Times, Holding;
    assert list[0..i] == list[..i];
    forall s | 0 <= s < |db|
      ensures Holding(db, who, s) >= want * Times(list[0..i], s)
    {
      assert Holding(db0, who, s) >= 0;
    }
  }

  lemma GainedBack(db0: Db, db: Db, db': Db, who: Node, list: seq<nat>, want: int)
    requires Gained(db0, db, who, list, want) && Gained(db', db, who, list, want)
    ensures Gained(db0, db', who, [], want)
  {
    hide Held, Times, Holding;
    TimesNone();
  }

  /** Waiting for all: one attempt takes `want` locks per occurrence on the list, or nothing at all,
    * and it reports which by the total. */
  lemma AcquireManyAll(db: Db, who: Node, list: seq<nat>, want: int)
    requires GoodDb(db) && AllShaped(db) && InRange(list, db) && Real(who) && want >= 1
    ensures var r := AcquireMany(db, who, list, 0, want, true, 0);
            && GoodDb(r.0) && OthersHold(db, r.0, who)
            && (Enough(r.1, want, |list|, true) ==> Gained(db, r.0, who, list, want))
            && (!Enough(r.1, want, |list|, true) ==> Gained(db, r.0, who, [], want))
  {
    hide Held, Good, Times, Holding, AcquireMany;
    TimesNone();
    assert list[..0] == [];
    assert Gained(db, db, who, [], want);
    AcquireAllFrom(db, db, who, list, 0, want);
    if list != [] {
      assert want * |list| > 0;
    }
  }

  // The first semaphore from i on that could meet the request.
  function FirstFit(db: Db, list: seq<nat>, i: nat, want: int): (k: nat)
    requires InRange(list, db) && i <= |list|
    ensures i <= k <= |list|
    ensures k < |list| ==> Fits(db[list[k]], want)
    ensures forall m :: i <= m < k ==> !Fits(db[list[m]], want)
    decreases |list| - i
  {
    if i == |list| || Fits(db[list[i]], want) then i else FirstFit(db, list, i + 1, want)
  }

  /** Waiting for any: an attempt takes `want` locks of the first semaphore on the list that has them. */
  lemma {:induction false} AcquireManyAny(db: Db, who: Node, list: seq<nat>, i: nat, want: int)
    requires GoodDb(db) && AllShaped(db) && InRange(list, db) && i <= |list| && Real(who) && want >= 1
    ensures var r := AcquireMany(db, who, list, i, want, false, 0);
            var k := FirstFit(db, list, i, want);
            && GoodDb(r.0) && OthersHold(db, r.0, who)
            && (Enough(r.1, want, |list|, false) <==> k < |list|)
            && (k < |list| ==> Gained(db, r.0, who, [list[k]], want))
            && (k == |list| ==> r.0 == db)
    decreases |list| - i
  {
    hide Held, Good, Times, Holding, Acquire, Gained, GoodDb, Fits;
    if i < |list| {
      AcquireShaped(db[list[i]], who, want, Unset);
      AttemptMeans(db, who, list[i], want);
      AttemptOne(db, who, list[i], want, Unset);
      if !Fits(db[list[i]], want) {
        AcquireManyAny(db, who, list, i + 1, want);
      }
    }
  }

  // ---- steps ----

  /** Every step of every node keeps the database consistent. */
  lemma StepKeeps(db: Db, ev: Event)
    requires GoodDb(db) && AllShaped(db) && Legal(ev)
    ensures GoodDb(Step(db, ev))
  {
    hide Held, Good, Acquire, AcquireMany, Release, Create, Delete;
    match ev
    case Creating(who, kind, key, extErr, numLocks, limit) =>
      if CreateGuard(numLocks, limit) {
        CreateMeans(db, who, kind, key, extErr, numLocks, limit);
      }
    case Acquiring(who, s, want) =>
      if s < |db| {
        if want < 0 {
          AcquireEvery(db[s], who, want, Unset);
        } else {
          AcquireAllOrNothing(db[s], who, want, Unset);
        }
        SetLocks(db, s, Acquire(db[s], who, want, Unset).entry);
      }
    case AcquiringMany(who, sems, want, waitall) =>
      if InRange(sems, db) {
        if waitall {
          AcquireManyAll(db, who, sems, want);
        } else {
          AcquireManyAny(db, who, sems, 0, want);
        }
      }
    case Releasing(who, s, want) =>
      if s < |db| {
        ReleaseMeans(db[s], Only(who), want, Unset);
        SetLocks(db, s, Release(db[s], Only(who), want, Unset).entry);
      }
    case Signalling(_, s, want) =>
      if s < |db| {
        ReleaseMeans(db[s], Anyone, want, Unset);
        SetLocks(db, s, Release(db[s], Anyone, want, Unset).entry);
      }
    case Deleting(who, s) =>
      if s < |db| {
        DeleteKeeps(db, who, s);
      }
  }

  lemma DeleteKeeps(db: Db, who: Node, s: nat)
    requires GoodDb(db) && s < |db| && Shaped(db[s])
    ensures GoodDb(db[s := Delete(db[s], who)])
  {
    hide Held, Good, MayDelete;
    DeleteMeans(db[s], who);
  }

  lemma AcquireOthers(e: Entry, who: Node, want: int, me: Node)
    requires Good(e) && Shaped(e) && Real(who) && want != 0 && me != who
    ensures var e' := Acquire(e, who, want, Unset).entry;
            SameButLocks(e, e') && Held(e'.locks, Only(me)) == Held(e.locks, Only(me))
  {
    hide Held, Good, Acquire;
    if want < 0 {
      AcquireEvery(e, who, want, Unset);
    } else {
      AcquireAllOrNothing(e, who, want, Unset);
    }
  }

  // By how much a count went down.
  function Fewer(before: nat, after: nat): nat {
    if after < before then before - after else 0
  }

  // What a signal takes from a node.
  function StepTakes(db: Db, ev: Event, me: Node, s: nat): nat
    requires AllShaped(db) && s < |db|
  {
    if ev.Signalling? then Fewer(Holding(db, me, s), Holding(Step(db, ev), me, s)) else 0
  }

  /** A step by another node changes what a node holds only if it is a signal, which takes at most as many
    * locks as it signals and only of that semaphore. */
  lemma StepOthers(db: Db, ev: Event, me: Node, s: nat)
    requires GoodDb(db) && AllShaped(db) && Legal(ev) && Real(me) && s < |db|
    requires ev.who != me
    ensures Holding(Step(db, ev), me, s) == Holding(db, me, s) - StepTakes(db, ev, me, s)
    ensures StepTakes(db, ev, me, s) > 0 ==> ev.sem == s && StepTakes(db, ev, me, s) <= ev.want
  {
    hide Held, Good, Acquire, AcquireMany, Release, Create, Delete;
    match ev
    case Creating(who, kind, key, extErr, numLocks, limit) =>
      if CreateGuard(numLocks, limit) {
        CreateMeans(db, who, kind, key, extErr, numLocks, limit);
      }
    case Acquiring(who, t, want) =>
      if t < |db| {
        AcquireOthers(db[t], who, want, me);
      }
    case AcquiringMany(who, sems, want, waitall) =>
      if InRange(sems, db) {
        if waitall {
          AcquireManyAll(db, who, sems, want);
        } else {
          AcquireManyAny(db, who, sems, 0, want);
        }
      }
    case Releasing(who, t, want) =>
      if t < |db| {
        ReleaseMeans(db[t], Only(who), want, Unset);
      }
    case Signalling(_, t, want) =>
      if t < |db| {
        ReleaseMeans(db[t], Anyone, want, Unset);
      }
    case Deleting(who, t) =>
      if t < |db| {
        DeleteOthers(db[t], who, me);
      }
  }

  // A node that holds a lock of a semaphore keeps others from deleting it.
  lemma DeleteOthers(e: Entry, who: Node, me: Node)
    requires Good(e) && Shaped(e) && me != who
    ensures Held(e.locks, Only(me)) > 0 ==> !MayDelete(e, who)
    ensures var e' := Delete(e, who);
            e' == e.(valid := e'.valid, deleted := e'.deleted) && (e'.valid == e.valid || Held(e.locks, Only(me)) == 0)
  {
    hide Held;
    DeleteMeans(e, who);
    OwnsAll(e, Only(who));
    if Held(e.locks, Only(me)) > 0 {
      var i := HeldSome(e.locks, Only(me));
      assert !Locks(e.locks[i], Only(who));
    }
  }

  // A retired semaphore has nothing free to take and nothing that may be given back.
  lemma RetiredIsStill(e: Entry, who: Node, want: int, whose: Whose)
    requires Good(e) && Shaped(e) && !e.valid && Real(who) && want != 0 && !whose.OnlyOrAnonymous?
    ensures Acquire(e, who, want, Unset).entry == e
    ensures Release(e, whose, want, Unset).entry == e
    ensures Delete(e, who) == e
  {
    hide Held, Acquire, Release;
    ReleaseMeans(e, whose, want, Unset);
    if want < 0 {
      AcquireEvery(e, who, want, Unset);
      FullMeans(e);
      var e' := Acquire(e, who, want, Unset).entry;
      assert e'.locks == e.locks;
    } else {
      AcquireAllOrNothing(e, who, want, Unset);
    }
  }

  lemma {:induction false} AttemptsLeave(db: Db, who: Node, list: seq<nat>, i: nat, want: int, waitall: bool, total: int, s: nat)
    requires GoodDb(db) && AllShaped(db) && InRange(list, db) && i <= |list| && Real(who) && want >= 1
    requires s < |db| && !db[s].valid
    ensures AcquireMany(db, who, list, i, want, waitall, total).0[s] == db[s]
    decreases |list| - i
  {
    hide Held, Good, Times, Holding, Acquire, Rollback, GoodDb;
    if i < |list| {
      AcquireShaped(db[list[i]], who, want, Unset);
      AttemptMeans(db, who, list[i], want);
      var a := Acquire(db[list[i]], who, want, Unset);
      var db1 := db[list[i] := a.entry];
      GoodAt(db, s);
      RetiredIsStill(db[s], who, want, Anyone);
      if a.added != want {
        if waitall {
          RollbackLeaves(db, who, list, 0, i, want, s);
        } else {
          AttemptsLeave(db, who, list, i + 1, want, waitall, 0, s);
        }
      } else if waitall || a.added <= 0 {
        AttemptsLeave(db1, who, list, i + 1, want, waitall, total + a.added, s);
      }
    }
  }

  lemma {:induction false} RollbackLeaves(db: Db, who: Node, list: seq<nat>, j: nat, i: nat, want: int, s: nat)
    requires GoodDb(db) && AllShaped(db) && InRange(list, db) && j <= i <= |list| && want >= 1
    requires s < |db| && !db[s].valid && Real(who)
    ensures Rollback(db, who, list, j, i, want)[s] == db[s]
    decreases i - j
  {
    hide Held, Good, Release, GoodDb;
    if j < i {
      GoodAt(db, s);
      RetiredIsStill(db[s], who, want, Only(who));
      ReleaseKeeps(db, Only(who), list[j], want, Unset);
      ReleaseShaped(db[list[j]], Only(who), want, Unset);
      RollbackLeaves(db[list[j] := Release(db[list[j]], Only(who), want, Unset).entry], who, list, j + 1, i, want, s);
    }
  }

  /** A semaphore retired under extended error checking is never touched again, by whatever step of
    * whatever node: its entry is not given to another semaphore. */
  lemma RetiredForGood(db: Db, ev: Event, s: nat)
    requires GoodDb(db) && AllShaped(db) && Legal(ev) && s < |db| && !db[s].valid && db[s].deleted
    ensures Step(db, ev)[s] == db[s]
  {
    hide Held, Good, Acquire, AcquireMany, Release, Create, Delete, GoodDb;
    GoodAt(db, s);
    match ev
    case Creating(who, kind, key, extErr, numLocks, limit) =>
      if CreateGuard(numLocks, limit) {
        CreateMeans(db, who, kind, key, extErr, numLocks, limit);
      }
    case Acquiring(who, t, want) =>
      RetiredIsStill(db[s], who, want, Anyone);
    case AcquiringMany(who, sems, want, waitall) =>
      if InRange(sems, db) {
        AttemptsLeave(db, who, sems, 0, want, waitall, 0, s);
      }
    case Releasing(who, t, want) =>
      RetiredIsStill(db[s], who, want, Only(who));
    case Signalling(who, t, want) =>
      RetiredIsStill(db[s], who, want, Anyone);
    case Deleting(who, t) =>
      RetiredIsStill(db[s], who, 1, Anyone);
  }

  ghost predicate AllLegal(events: seq<Event>) {
    forall i :: 0 <= i < |events| ==> Legal(events[i])
  }

  /** Over every run the database stays consistent. */
  lemma {:induction false} RunKeeps(db: Db, events: seq<Event>)
    requires GoodDb(db) && AllShaped(db) && AllLegal(events)
    ensures GoodDb(Run(db, events))
    decreases |events|
  {
    hide GoodDb, Legal, Step;
    if events != [] {
      StepKeeps(db, events[0]);
      RunKeeps(Step(db, events[0]), events[1..]);
    }
  }

  // What others do while a node waits.
  ghost predicate ByOthers(events: seq<Event>, me: Node) {
    AllLegal(events) && forall i :: 0 <= i < |events| ==> events[i].who != me
  }

  /** What signals take from a node over a run. */
  function SignalsTake(db: Db, events: seq<Event>, me: Node, s: nat): nat
    requires AllShaped(db) && s < |db|
    decreases |events|
  {
    if events == [] then 0
    else StepTakes(db, events[0], me, s) + SignalsTake(Step(db, events[0]), events[1..], me, s)
  }

  predicate NoSignals(events: seq<Event>) {
    forall i :: 0 <= i < |events| ==> !events[i].Signalling?
  }

  // ---- what a semaphore is known by ----

  /** A step leaves key, kind, limit and error checking of a semaphore in use alone; only a delete takes it
    * out of use, and keeps it for error reports if extended error checking was asked for. */
  lemma StepIdentity(db: Db, ev: Event, s: nat)
    requires GoodDb(db) && AllShaped(db) && Legal(ev) && s < |db| && db[s].valid
    ensures var e := Step(db, ev)[s];
            if e.valid then SameButLocks(db[s], e)
            else
              && ev == Deleting(ev.who, s) && e == Delete(db[s], ev.who)
              && e == db[s].(valid := false, deleted := e.deleted) && (db[s].extErr ==> e.deleted)
  {
    hide Held, Good, Acquire, AcquireMany, Release, Create, MayDelete;
    match ev
    case Creating(who, kind, key, extErr, numLocks, limit) =>
      if CreateGuard(numLocks, limit) {
        CreateMeans(db, who, kind, key, extErr, numLocks, limit);
      }
    case Acquiring(who, t, want) =>
      if t < |db| {
        if want < 0 {
          AcquireEvery(db[t], who, want, Unset);
        } else {
          AcquireAllOrNothing(db[t], who, want, Unset);
        }
      }
    case AcquiringMany(who, sems, want, waitall) =>
      if InRange(sems, db) {
        if waitall {
          AcquireManyAll(db, who, sems, want);
        } else {
          AcquireManyAny(db, who, sems, 0, want);
        }
      }
    case Releasing(who, t, want) =>
      if t < |db| {
        ReleaseMeans(db[t], Only(who), want, Unset);
      }
    case Signalling(who, t, want) =>
      if t < |db| {
        ReleaseMeans(db[t], Anyone, want, Unset);
      }
    case Deleting(who, t) =>
  }

  /** No delete of the run retires the semaphore. */
  ghost predicate StaysInUse(db: Db, events: seq<Event>, s: nat)
    requires AllShaped(db) && s < |db|
    decreases |events|
  {
    db[s].valid && (events == [] || StaysInUse(Step(db, events[0]), events[1..], s))
  }

  lemma {:induction false} RunIdentity(db: Db, events: seq<Event>, s: nat)
    requires GoodDb(db) && AllShaped(db) && AllLegal(events) && s < |db|
    requires StaysInUse(db, events, s)
    ensures SameButLocks(db[s], Run(db, events)[s]) && GoodDb(Run(db, events))
    decreases |events|
  {
    hide GoodDb, Legal, Step;
    if events != [] {
      StepKeeps(db, events[0]);
      StepIdentity(db, events[0], s);
      RunIdentity(Step(db, events[0]), events[1..], s);
    }
  }

  /** A semaphore created under a key holds that key: until a delete retires it, whatever happens, every
    * further creation under the key is refused, by whatever node and of whatever kind, and changes nothing. */
  lemma KeyIsTaken(db: Db, who: Node, kind: Kind, key: int, extErr: bool, numLocks: nat, limit: nat,
                   events: seq<Event>, who': Node, kind': Kind, extErr': bool, numLocks': nat, limit': nat)
    requires GoodDb(db) && AllShaped(db) && AllLegal(events) && Real(who) && CreateGuard(numLocks, limit)
    requires Real(who') && CreateGuard(numLocks', limit')
    requires var c := Create(db, who, kind, Some(key), extErr, numLocks, limit);
             c.sem.Some? && AllShaped(c.db) && c.sem.value < |c.db| && StaysInUse(c.db, events, c.sem.value)
    ensures var db' := Run(Create(db, who, kind, Some(key), extErr, numLocks, limit).db, events);
            Create(db', who', kind', Some(key), extErr', numLocks', limit') == Created(db', None, Exists(kind'))
  {
    hide Good, GoodDb, Held, Create, Run, Legal;
    CreateMeans(db, who, kind, Some(key), extErr, numLocks, limit);
    var c := Create(db, who, kind, Some(key), extErr, numLocks, limit);
    var s := c.sem.value;
    RunIdentity(c.db, events, s);
    var db' := Run(c.db, events);
    assert db'[s].valid && db'[s].key == Id(key);
    CreateMeans(db', who', kind', Some(key), extErr', numLocks', limit');
  }

  /** A semaphore deleted under extended error checking keeps its entry, as it was, for good. */
  lemma {:induction false} DeletedForGood(db: Db, ev: Event, events: seq<Event>, s: nat)
    requires GoodDb(db) && AllShaped(db) && Legal(ev) && AllLegal(events) && s < |db|
    requires db[s].valid && db[s].extErr && !Step(db, ev)[s].valid
    ensures Run(Step(db, ev), events)[s] == db[s].(valid := false, deleted := true)
    decreases |events|
  {
    hide GoodDb, Legal, Step, Delete;
    StepKeeps(db, ev);
    StepIdentity(db, ev, s);
    RetiredRun(Step(db, ev), events, s);
  }

  lemma {:induction false} RetiredRun(db: Db, events: seq<Event>, s: nat)
    requires GoodDb(db) && AllShaped(db) && AllLegal(events) && s < |db| && !db[s].valid && db[s].deleted
    ensures Run(db, events)[s] == db[s]
    decreases |events|
  {
    hide GoodDb, Legal, Step;
    if events != [] {
      StepKeeps(db, events[0]);
      RetiredForGood(db, events[0], s);
      RetiredRun(Step(db, events[0]), events[1..], s);
    }
  }

  /** Whatever the other nodes do, a node loses exactly what their signals take. */
  lemma {:induction false} RunOthers(db: Db, events: seq<Event>, me: Node, s: nat)
    requires GoodDb(db) && AllShaped(db) && ByOthers(events, me) && Real(me) && s < |db|
    ensures Holding(Run(db, events), me, s) == Holding(db, me, s) - SignalsTake(db, events, me, s)
    ensures NoSignals(events) ==> SignalsTake(db, events, me, s) == 0
    decreases |events|
  {
    hide GoodDb, Legal, Step, Holding;
    if events != [] {
      StepKeeps(db, events[0]);
      StepOthers(db, events[0], me, s);
      RunOthers(Step(db, events[0]), events[1..], me, s);
    }
  }

  lemma Reachable(events: seq<Event>) returns (db: Db)
    requires AllLegal(events)
    ensures db == Run(EmptyDb(), events) && GoodDb(db)
  {
    hide GoodDb, Good, Legal, Step, Held;
    EmptyGood();
    RunKeeps(EmptyDb(), events);
    db := Run(EmptyDb(), events);
  }

  /** Whatever has happened so far: the counter of each semaphore is its number of locked slots and at
    * most its limit, and no distinct nodes together hold more than that. */
  lemma CountersRight(events: seq<Event>, s: nat, nodes: seq<Node>)
    requires AllLegal(events) && s < MAX_SEMS
    requires forall i, j :: 0 <= i < j < |nodes| ==> nodes[i] != nodes[j]
    ensures var e := Run(EmptyDb(), events)[s];
            e.numLocks == Held(e.locks, Anyone) && TotalHeld(e.locks, nodes) <= e.numLocks <= e.limit <= MAX_SHARED_LOCKS
  {
    hide Held, TotalHeld, Step, Legal;
    var db := Reachable(events);
    var e := db[s];
    HeldInLimit(e, Anyone);
    HeldShared(e.locks, nodes);
  }

  /** A semaphore with one lock is mutually exclusive over every run. */
  lemma MutualExclusion(events: seq<Event>, s: nat, a: Node, b: Node)
    requires AllLegal(events) && s < MAX_SEMS
    requires Run(EmptyDb(), events)[s].limit == 1
    requires Held(Run(EmptyDb(), events)[s].locks, Only(a)) > 0
    requires Held(Run(EmptyDb(), events)[s].locks, Only(b)) > 0
    ensures a == b
  {
    hide Held, Run;
    assert [a, b][1..] == [b] && [b][1..] == [];
    if a != b {
      CountersRight(events, s, [a, b]);
    }
  }

  /** Over every run, a semaphore is retired only by a delete of the node that owns all of its locks. */
  lemma RetiredByOwner(events: seq<Event>, ev: Event, s: nat)
    requires AllLegal(events) && Legal(ev) && s < MAX_SEMS
    requires var db := Run(EmptyDb(), events); db[s].valid && !Step(db, ev)[s].valid
    ensures var e := Run(EmptyDb(), events)[s];
            && ev == Deleting(ev.who, s)
            && forall l :: 0 <= l < e.limit ==> Locks(e.locks[l], Only(ev.who))
  {
    hide Held, Good, Step, Delete, Run;
    var db := Reachable(events);
    StepIdentity(db, ev, s);
    RetiringMeans(db[s], ev.who);
  }

  lemma RetiringMeans(e: Entry, who: Node)
    requires Good(e) && Shaped(e) && e.valid
    ensures !Delete(e, who).valid ==> forall l :: 0 <= l < e.limit ==> Locks(e.locks[l], Only(who))
  {
    hide Held;
    DeleteMeans(e, who);
    OwnsAll(e, Only(who));
  }

  // ---- blocking calls ----

  ghost predicate Schedule(schedule: seq<seq<Event>>, me: Node) {
    forall k :: 0 <= k < |schedule| ==> ByOthers(schedule[k], me)
  }

  predicate Quiet(schedule: seq<seq<Event>>) {
    forall k :: 0 <= k < |schedule| ==> NoSignals(schedule[k])
  }

  lemma QuietParts(schedule: seq<seq<Event>>)
    requires schedule != []
    ensures Quiet(schedule) ==> NoSignals(schedule[0]) && Quiet(schedule[1..])
  {
    hide NoSignals;
  }

  // Numbers of locks, one for each semaphore.
  function Zeros(db: Db): (z: seq<nat>)
    ensures |z| == |db|
  {
    seq(|db|, _ => 0)
  }

  function Plus(a: seq<nat>, b: seq<nat>): (c: seq<nat>)
    requires |a| == |b|
    ensures |c| == |a| && forall i :: 0 <= i < |a| ==> c[i] == a[i] + b[i]
  {
    seq(|a|, i requires 0 <= i < |a| => a[i] + b[i])
  }

  lemma PlusZeros(db: Db, db': Db)
    requires |db'| == |db|
    ensures Zeros(db') == Zeros(db) && Plus(Zeros(db), Zeros(db)) == Zeros(db)
  {
  }

  /** What signals take from a node over a run, of every semaphore. */
  function Taken(db: Db, events: seq<Event>, me: Node): (t: seq<nat>)
    requires AllShaped(db)
    ensures |t| == |db| && forall s :: 0 <= s < |db| ==> t[s] == SignalsTake(db, events, me, s)
  {
    seq(|db|, s requires 0 <= s < |db| => SignalsTake(db, events, me, s))
  }

  /** What signals take from the caller while it waits for a set. */
  function TakenInSet(db: Db, who: Node, list: seq<nat>, want: int, waitall: bool, timeout: nat, time: nat,
                      schedule: seq<seq<Event>>): (t: seq<nat>)
    requires AllShaped(db) && InRange(list, db)
    ensures |t| == |db|
    decreases |schedule|
  {
    var a := AcquireMany(db, who, list, 0, want, waitall, 0);
    if Enough(a.1, want, |list|, waitall) || schedule == [] then Zeros(db)
    else
      var now := Taken(a.0, schedule[0], who);
      if timeout != TIMEOUT_INFINITE && time + 1 >= timeout then now
      else Plus(now, TakenInSet(Run(a.0, schedule[0]), who, list, want, waitall, timeout, time + 1, schedule[1..]))
  }

  /** What signals take from the caller while it waits for `want` locks of one semaphore. */
  function TakenInOne(db: Db, who: Node, s: nat, want: int, timeout: nat, time: nat, schedule: seq<seq<Event>>): (t: seq<nat>)
    requires AllShaped(db) && s < |db|
    ensures |t| == |db|
    decreases |schedule|
  {
    if Fits(db[s], want) || schedule == [] then Zeros(db)
    else
      var now := Taken(db, schedule[0], who);
      if timeout != TIMEOUT_INFINITE && time + 1 >= timeout then now
      else Plus(now, TakenInOne(Run(db, schedule[0]), who, s, want, timeout, time + 1, schedule[1..]))
  }

  /** What `who` holds has gone up by `want` for each occurrence on the list, and down by what was lost. */
  ghost predicate Nets(db: Db, db': Db, who: Node, list: seq<nat>, want: int, lost: seq<nat>) {
    && |db'| == |db| == |lost|
    && forall s :: 0 <= s < |db| ==> Holding(db', who, s) == Holding(db, who, s) + want * Times(list, s) - lost[s]
  }

  lemma GainedNets(db: Db, db': Db, who: Node, list: seq<nat>, want: int)
    requires Gained(db, db', who, list, want)
    ensures Nets(db, db', who, list, want, Zeros(db))
  {
    hide Held, Times, Holding;
  }

  lemma NetsAcross(db: Db, mid: Db, db': Db, who: Node, list: seq<nat>, want: int, lost: seq<nat>, later: seq<nat>)
    requires Nets(db, mid, who, [], want, lost) && Nets(mid, db', who, list, want, later)
    ensures |lost| == |later| && Nets(db, db', who, list, want, Plus(lost, later))
  {
    hide Held, Times, Holding;
    TimesNone();
  }

  // An attempt that gains nothing, then what the others do.
  lemma YieldNets(db: Db, mid: Db, events: seq<Event>, who: Node, want: int)
    requires GoodDb(mid) && AllShaped(mid) && ByOthers(events, who) && Real(who) && Gained(db, mid, who, [], want)
    ensures GoodDb(Run(mid, events)) && Nets(db, Run(mid, events), who, [], want, Taken(mid, events, who))
    ensures NoSignals(events) ==> Taken(mid, events, who) == Zeros(mid)
  {
    hide GoodDb, Held, Times, Holding, Run, NoSignals, SignalsTake;
    RunKeeps(mid, events);
    TimesNone();
    forall s | 0 <= s < |mid|
      ensures Holding(Run(mid, events), who, s) == Holding(mid, who, s) - SignalsTake(mid, events, who, s)
      ensures NoSignals(events) ==> SignalsTake(mid, events, who, s) == 0
    {
      RunOthers(mid, events, who, s);
    }
  }

  /** Waiting for all of a set is all or nothing for the caller, whatever the others do at each yield:
    * granted, it gains `want` locks of each semaphore per occurrence on the list; refused or still
    * waiting, it gains none. It loses what signals of others take while it waits, and nothing else. */
  lemma {:induction false} LockAllOrNothing(db: Db, who: Node, list: seq<nat>, want: int, timeout: nat, time: nat,
                                            schedule: seq<seq<Event>>, status: Status)
    requires GoodDb(db) && AllShaped(db) && InRange(list, db) && Real(who) && want >= 1 && Schedule(schedule, who)
    ensures var r := LockMultiple(db, who, list, want, true, timeout, time, schedule, status);
            var lost := TakenInSet(db, who, list, want, true, timeout, time, schedule);
            && GoodDb(r.db)
            && (r.wait.Granted? ==> r.status == Success)
            && Nets(db, r.db, who, if r.wait.Granted? then list else [], want, lost)
            && (Quiet(schedule) ==> lost == Zeros(db))
            && (r.wait.Refused? ==> r.status == if timeout != 1 then Timeout else status)
    decreases |schedule|
  {
    hide GoodDb, Held, Times, Holding, Gained, Nets, AcquireMany, Run, Enough, NoSignals, Taken, Zeros, Plus;
    AcquireManyAll(db, who, list, want);
    var a := AcquireMany(db, who, list, 0, want, true, 0);
    if Enough(a.1, want, |list|, true) {
      GainedNets(db, a.0, who, list, want);
    } else if schedule == [] {
      GainedNets(db, a.0, who, [], want);
    } else {
      YieldNets(db, a.0, schedule[0], who, want);
      PlusZeros(db, a.0);
      var db1 := Run(a.0, schedule[0]);
      if timeout == TIMEOUT_INFINITE || time + 1 < timeout {
        LockAllOrNothing(db1, who, list, want, timeout, time + 1, schedule[1..], status);
        var r := LockMultiple(db1, who, list, want, true, timeout, time + 1, schedule[1..], status);
        NetsAcross(db, db1, r.db, who, if r.wait.Granted? then list else [], want, Taken(a.0, schedule[0], who),
                   TakenInSet(db1, who, list, want, true, timeout, time + 1, schedule[1..]));
        PlusZeros(db, db1);
      }
    }
  }

  /** Waiting for any of a set gains the request on exactly one of its semaphores, or nothing; it loses
    * what signals of others take while it waits. */
  lemma {:induction false} LockAnyOne(db: Db, who: Node, list: seq<nat>, want: int, timeout: nat, time: nat,
                                      schedule: seq<seq<Event>>, status: Status)
    requires GoodDb(db) && AllShaped(db) && InRange(list, db) && Real(who) && want >= 1 && Schedule(schedule, who)
    ensures var r := LockMultiple(db, who, list, want, false, timeout, time, schedule, status);
            var lost := TakenInSet(db, who, list, want, false, timeout, time, schedule);
            && GoodDb(r.db)
            && (r.wait.Granted? ==>
                  && r.status == Success
                  && exists k :: 0 <= k < |list| && Nets(db, r.db, who, [list[k]], want, lost))
            && (!r.wait.Granted? ==> Nets(db, r.db, who, [], want, lost))
            && (Quiet(schedule) ==> lost == Zeros(db))
            && (r.wait.Refused? ==> r.status == if timeout != 1 then Timeout else status)
    decreases |schedule|
  {
    hide GoodDb, Held, Times, Holding, Gained, Nets, AcquireMany, Run, Enough, NoSignals, Taken, Zeros, Plus, Quiet, Fits;
    AcquireManyAny(db, who, list, 0, want);
    var a := AcquireMany(db, who, list, 0, want, false, 0);
    if Enough(a.1, want, |list|, false) {
      GainedNets(db, a.0, who, [list[FirstFit(db, list, 0, want)]], want);
    } else {
      GainedNothing(db, who, want);
      GainedNets(db, db, who, [], want);
      if schedule != [] {
        QuietParts(schedule);
        YieldNets(db, db, schedule[0], who, want);
        var db1 := Run(db, schedule[0]);
        if timeout == TIMEOUT_INFINITE || time + 1 < timeout {
          LockAnyOne(db1, who, list, want, timeout, time + 1, schedule[1..], status);
          var r := LockMultiple(db1, who, list, want, false, timeout, time + 1, schedule[1..], status);
          var now, later := Taken(db, schedule[0], who), TakenInSet(db1, who, list, want, false, timeout, time + 1, schedule[1..]);
          PlusZeros(db, db1);
          if r.wait.Granted? {
            var k :| 0 <= k < |list| && Nets(db1, r.db, who, [list[k]], want, later);
            NetsAcross(db, db1, r.db, who, [list[k]], want, now, later);
          } else {
            NetsAcross(db, db1, r.db, who, [], want, now, later);
          }
        }
      }
    }
  }

  lemma GainedNothing(db: Db, who: Node, want: int)
    ensures Gained(db, db, who, [], want)
  {
    hide Held, Times, Holding;
    TimesNone();
  }

  /** Locking one semaphore gains exactly the request when granted, and nothing otherwise; it loses what
    * signals of others take while it waits. */
  lemma {:induction false} LockOneMeans(db: Db, who: Node, s: nat, want: int, timeout: nat, time: nat,
                                        schedule: seq<seq<Event>>, status: Status)
    requires GoodDb(db) && AllShaped(db) && s < |db| && Real(who) && want >= 1 && Schedule(schedule, who)
    ensures var r := LockOne(db, who, s, want, 0, timeout, time, schedule, status);
            var lost := TakenInOne(db, who, s, want, timeout, time, schedule);
            && GoodDb(r.db)
            && (r.wait.Granted? ==> r.status == Success)
            && Nets(db, r.db, who, if r.wait.Granted? then [s] else [], want, lost)
            && (Quiet(schedule) ==> lost == Zeros(db))
            && (r.wait.Refused? && timeout != 1 ==> r.status == Timeout)
            && (r.wait.Refused? && timeout == 1 ==> r.status.Locked?)
    decreases |schedule|
  {
    hide GoodDb, Good, Held, Times, Holding, Gained, Nets, Acquire, Run, NoSignals, Taken, Zeros, Plus, Fits;
    AttemptOne(db, who, s, want, status);
    var a := Acquire(db[s], who, want, status);
    if Fits(db[s], want) {
      GainedNets(db, db[s := a.entry], who, [s], want);
    } else {
      GainedNothing(db, who, want);
      GainedNets(db, db, who, [], want);
      if schedule != [] {
        YieldNets(db, db, schedule[0], who, want);
        var db1 := Run(db, schedule[0]);
        if timeout == TIMEOUT_INFINITE || time + 1 < timeout {
          LockOneMeans(db1, who, s, want, timeout, time + 1, schedule[1..], a.status);
          var r := LockOne(db1, who, s, want, 0, timeout, time + 1, schedule[1..], a.status);
          PlusZeros(db, db1);
          NetsAcross(db, db1, r.db, who, if r.wait.Granted? then [s] else [], want, Taken(db, schedule[0], who),
                     TakenInOne(db1, who, s, want, timeout, time + 1, schedule[1..]));
        }
      }
    }
  }

  lemma AttemptOne(db: Db, who: Node, s: nat, want: int, status: Status)
    requires GoodDb(db) && AllShaped(db) && s < |db| && Real(who) && want >= 1
    ensures var a := Acquire(db[s], who, want, status);
            var db1 := db[s := a.entry];
            && GoodDb(db1)
            && (a.added == want <==> Fits(db[s], want))
            && (a.added == want ==> a.status == Success && Gained(db, db1, who, [s], want))
            && (a.added != want ==> a.added == 0 && a.status.Locked? && db1 == db)
  {
    hide Held, Good, Acquire, Times;
    AcquireAllOrNothing(db[s], who, want, status);
    var a := Acquire(db[s], who, want, status);
    SetLocks(db, s, a.entry);
    GainedNothing(db, who, want);
    assert [s][..0] == [] && [s][..1] == [s];
    if a.added == want {
      GainedStep(db, db, db[s := a.entry], who, [s], 0, want);
    }
  }

  // ---- asking for every lock ----

  // No node but `who` has a lock of this semaphore.
  predicate OursOnly(e: Entry, who: Node) {
    Held(e.locks, Only(who)) == e.numLocks
  }

  /** An attempt at all locks reports success exactly when no other node holds one, or when the caller's
    * status variable happened to say so already; in every case it keeps the free locks it found. */
  lemma LockEveryOnce(db: Db, who: Node, s: nat, want: int, timeout: nat, status: Status)
    requires GoodDb(db) && AllShaped(db) && s < |db| && db[s].valid && Real(who) && want < 0
    ensures var r := LockOne(db, who, s, want, 0, timeout, 0, [], status);
            && GoodDb(r.db) && r.db == db[s := r.db[s]] && SameButLocks(db[s], r.db[s])
            && (r.wait.Granted? <==> OursOnly(db[s], who) || status == Success)
            && (OursOnly(db[s], who) <==> Held(r.db[s].locks, Only(who)) == r.db[s].limit)
            && Holding(r.db, who, s) == Holding(db, who, s) + db[s].limit - db[s].numLocks
            && OthersKeep(db[s].locks, r.db[s].locks, who)
  {
    hide Held, Good, Acquire;
    AcquireEvery(db[s], who, want, status);
    var a := Acquire(db[s], who, want, status);
    SetLocks(db, s, a.entry);
    ValidLimit(db[s]);
  }

  lemma ValidLimit(e: Entry)
    requires Good(e)
    ensures e.valid ==> e.limit >= 1
  {
    hide Held;
  }

  /** Under every schedule, a caller that is told it has every lock has every lock, if and only if its
    * status variable did not say success beforehand or no other node held one. */
  lemma {:induction false} LockEvery(db: Db, who: Node, s: nat, want: int, got: int, timeout: nat, time: nat,
                                     schedule: seq<seq<Event>>, status: Status)
    requires GoodDb(db) && AllShaped(db) && s < |db| && Real(who) && want < 0 && got >= 0 && Schedule(schedule, who)
    ensures var r := LockOne(db, who, s, want, got, timeout, time, schedule, status);
            && GoodDb(r.db)
            && (r.wait.Granted? ==>
                  (OwnsEvery(r.db[s], who) <==> status != Success || OursOnly(db[s], who)))
    decreases |schedule|
  {
    hide Held, Good, Acquire, Run, GoodDb, OwnsEvery, OursOnly;
    CollectOnce(db, who, s, want, status);
    var a := Acquire(db[s], who, want, status);
    if a.status != Success && schedule != [] {
      RunKeeps(db[s := a.entry], schedule[0]);
      if timeout == TIMEOUT_INFINITE || time + 1 < timeout {
        LockEvery(Run(db[s := a.entry], schedule[0]), who, s, want, got + a.added, timeout, time + 1, schedule[1..], a.status);
      }
    }
  }

  ghost predicate OwnsEvery(e: Entry, who: Node) {
    forall l :: 0 <= l < e.limit && l < |e.locks| ==> Locks(e.locks[l], Only(who))
  }

  lemma CollectOnce(db: Db, who: Node, s: nat, want: int, status: Status)
    requires GoodDb(db) && AllShaped(db) && s < |db| && Real(who) && want < 0
    ensures var a := Acquire(db[s], who, want, status);
            && GoodDb(db[s := a.entry]) && AllShaped(db[s := a.entry]) && a.added >= 0
            && (status == Success ==> a.status == Success)
            && (a.status == Success ==> (OwnsEvery(a.entry, who) <==> status != Success || OursOnly(db[s], who)))
  {
    hide Held, Acquire;
    AcquireEvery(db[s], who, want, status);
    var a := Acquire(db[s], who, want, status);
    SetLocks(db, s, a.entry);
    OwnsAll(a.entry, Only(who));
  }

  // ---- deleting through the API ----

  // A node's complete ownership of a semaphore ends with the first lock a signal takes; incomplete
  // ownership stays incomplete.
  ghost predicate OwnershipKept(db: Db, db': Db, me: Node, s: nat, lost: nat)
    requires s < |db| == |db'|
  {
    && (db[s].valid && Held(db[s].locks, Only(me)) == db[s].limit && lost == 0 ==>
          db'[s].valid && Held(db'[s].locks, Only(me)) == db'[s].limit)
    && (db[s].valid && Held(db[s].locks, Only(me)) == db[s].limit && lost > 0 ==>
          Held(db'[s].locks, Only(me)) < db'[s].limit)
    && (Held(db[s].locks, Only(me)) < db[s].limit ==> Held(db'[s].locks, Only(me)) < db'[s].limit)
  }

  lemma StepOwnership(db: Db, ev: Event, me: Node, s: nat)
    requires GoodDb(db) && AllShaped(db) && Legal(ev) && Real(me) && s < |db|
    requires ev.who != me
    ensures OwnershipKept(db, Step(db, ev), me, s, StepTakes(db, ev, me, s))
  {
    hide Held, Good, Acquire, AcquireMany, Release, Create, Delete;
    match ev
    case Creating(who, kind, key, extErr, numLocks, limit) =>
      if CreateGuard(numLocks, limit) {
        CreateMeans(db, who, kind, key, extErr, numLocks, limit);
        var c := Create(db, who, kind, key, extErr, numLocks, limit);
        assert c.sem.Some? ==> Holding(c.db, me, c.sem.value) == 0;
      }
    case Acquiring(who, t, want) =>
      if t < |db| {
        AcquireOthers(db[t], who, want, me);
      }
    case AcquiringMany(who, sems, want, waitall) =>
      if InRange(sems, db) {
        if waitall {
          AcquireManyAll(db, who, sems, want);
        } else {
          AcquireManyAny(db, who, sems, 0, want);
        }
      }
    case Releasing(who, t, want) =>
      if t < |db| {
        ReleaseMeans(db[t], Only(who), want, Unset);
      }
    case Signalling(_, t, want) =>
      if t < |db| {
        ReleaseMeans(db[t], Anyone, want, Unset);
        SignalOwned(db[t], want, me);
      }
    case Deleting(who, t) =>
      if t < |db| {
        DeleteOthers(db[t], who, me);
        ValidLimit(db[t]);
      }
  }

  // A signal that goes through takes from the owner of every slot.
  lemma SignalOwned(e: Entry, want: int, me: Node)
    requires Good(e) && Shaped(e) && want != 0
    ensures var r := Release(e, Anyone, want, Unset);
            && (!r.ok ==> r.entry == e)
            && (r.ok && Held(e.locks, Only(me)) == e.limit ==> Held(r.entry.locks, Only(me)) < e.limit)
  {
    hide Held, Good, Release;
    ReleaseMeans(e, Anyone, want, Unset);
    var r := Release(e, Anyone, want, Unset);
    if r.ok && Held(e.locks, Only(me)) == e.limit && Held(r.entry.locks, Only(me)) >= e.limit {
      HeldOfAll(r.entry, me);
      HeldOfAll(e, me);
    }
  }

  lemma HeldOfAll(e: Entry, me: Node)
    requires Good(e)
    ensures Held(e.locks, Only(me)) <= Held(e.locks, Anyone) <= e.limit
  {
    hide Held;
    HeldInLimit(e, Anyone);
    assert [me][1..] == [];
    HeldShared(e.locks, [me]);
    assert TotalHeld(e.locks, [me]) == Held(e.locks, Only(me)) + TotalHeld(e.locks, []);
  }

  lemma {:induction false} RunOwnership(db: Db, events: seq<Event>, me: Node, s: nat)
    requires GoodDb(db) && AllShaped(db) && ByOthers(events, me) && Real(me) && s < |db|
    ensures OwnershipKept(db, Run(db, events), me, s, SignalsTake(db, events, me, s))
    decreases |events|
  {
    hide GoodDb, Legal, Step, Held, StepTakes;
    if events != [] {
      StepKeeps(db, events[0]);
      StepOwnership(db, events[0], me, s);
      RunOwnership(Step(db, events[0]), events[1..], me, s);
    }
  }

  /** What signals take from the caller during a delete: while its attempt yields, if it does not get the
    * locks at once, and before the entry is retired. */
  function TakenInDelete(db: Db, who: Node, s: nat, yielded: seq<Event>, between: seq<Event>, status: Status): nat
    requires AllShaped(db) && s < |db|
  {
    var first := LockOne(db, who, s, LOCKS_ALL, 0, 0, 0, [], status);
    if first.wait.Granted? then SignalsTake(first.db, between, who, s)
    else SignalsTake(first.db, yielded, who, s) + SignalsTake(Run(first.db, yielded), between, who, s)
  }

  /** Deleting succeeds exactly when no other node held a lock at the call and no signal takes one during
    * it. When it fails, the caller is left holding every lock that was free, less what signals took, so
    * the call undoes itself only if none was. */
  lemma DeleteCallMeans(db: Db, who: Node, s: nat, yielded: seq<Event>, between: seq<Event>, status: Status)
    requires GoodDb(db) && AllShaped(db) && s < |db| && db[s].valid && Real(who)
    requires ByOthers(yielded, who) && ByOthers(between, who)
    ensures var r := DeleteCall(db, who, s, yielded, between, status);
            var lost := TakenInDelete(db, who, s, yielded, between, status);
            && GoodDb(r.0)
            && r.1 == (if OursOnly(db[s], who) && lost == 0 then Success else SemLocked)
            && (r.1 == Success ==> !r.0[s].valid)
            && (r.1 != Success ==> Holding(r.0, who, s) == Holding(db, who, s) + db[s].limit - db[s].numLocks - lost)
            && (NoSignals(yielded) && NoSignals(between) ==> lost == 0)
  {
    hide Held, GoodDb, Good, Acquire, Run, Holding, OwnershipKept, MayDelete, SignalsTake, NoSignals;
    LockEveryOnce(db, who, s, LOCKS_ALL, 0, status);
    var db1 := LockOne(db, who, s, LOCKS_ALL, 0, 0, 0, [], status).db;
    RunKeeps(db1, yielded);
    RunOthers(db1, yielded, who, s);
    RunOwnership(db1, yielded, who, s);
    var granted := LockOne(db, who, s, LOCKS_ALL, 0, 0, 0, [], status).wait.Granted?;
    var db2 := LockOne(db, who, s, LOCKS_ALL, 0, 0, 0, [yielded], status).db;
    assert db2 == if granted then db1 else Run(db1, yielded);
    RunKeeps(db2, between);
    RunOthers(db2, between, who, s);
    RunOwnership(db2, between, who, s);
    var db3 := Run(db2, between);
    DeleteAt(db1, db2, db3, who, s, if granted then 0 else SignalsTake(db1, yielded, who, s), SignalsTake(db2, between, who, s));
    DeleteKeeps(db3, who, s);
  }

  lemma DeleteAt(db1: Db, db2: Db, db3: Db, who: Node, s: nat, lost: nat, later: nat)
    requires GoodDb(db1) && s < |db1| == |db2| == |db3| && db1[s].valid && GoodDb(db3) && Shaped(db3[s])
    requires (db2 == db1 && lost == 0) || OwnershipKept(db1, db2, who, s, lost)
    requires OwnershipKept(db2, db3, who, s, later)
    ensures MayDelete(db3[s], who) <==> Held(db1[s].locks, Only(who)) == db1[s].limit && lost + later == 0
    ensures MayDelete(db3[s], who) ==> db3[s].valid
    ensures !MayDelete(db3[s], who) ==> db3[s := Delete(db3[s], who)] == db3
  {
    hide Held, MayDelete;
    HeldInLimit(db1[s], Only(who));
    DeleteMeans(db3[s], who);
  }

  // ---- where the calls do not do what they say ----

  /** One semaphore of the given limit, of which one node holds one lock; another node. */
  lemma OneHolder(limit: nat) returns (db: Db, holder: Node, who: Node)
    requires 1 <= limit <= MAX_SHARED_LOCKS
    ensures GoodDb(db) && AllShaped(db) && |db| > 0 && db[0].valid && db[0].limit == limit && db[0].numLocks == 1
    ensures Real(holder) && Real(who) && holder != who
    ensures Held(db[0].locks, Only(holder)) == 1 && Held(db[0].locks, Only(who)) == 0
  {
    hide Held, Good, NewSlots;
    EmptyGood();
    holder, who := Node(0, 0), Node(0, 1);
    CreateMeans(EmptyDb(), holder, Sem, None, false, 1, limit);
    db := Create(EmptyDb(), holder, Sem, None, false, 1, limit).db;
    assert FindFree(EmptyDb(), 0) == 0;
    NewSlotsMeans(limit, 1, holder);
    GoodShaped(db);
  }

  /** A stale status makes the call lie: one node holds a lock, another asks for all and is told it has them. */
  lemma StaleSuccess() returns (db: Db, who: Node)
    ensures GoodDb(db) && AllShaped(db) && |db| > 0 && Real(who) && db[0].valid
    ensures var r := LockOne(db, who, 0, LOCKS_ALL, 0, 0, 0, [], Success);
            r.wait.Granted? && Held(r.db[0].locks, Only(who)) < r.db[0].limit
  {
    hide Held, Good, LockOne;
    var holder: Node;
    db, holder, who := OneHolder(2);
    LockEveryOnce(db, who, 0, LOCKS_ALL, 0, Success);
  }

  /** A failed delete changes what its caller holds: it held nothing, and ends up holding the free lock. */
  lemma FailedDeleteKeeps() returns (db: Db, who: Node)
    ensures GoodDb(db) && AllShaped(db) && |db| > 0 && Real(who) && db[0].valid
    ensures var r := DeleteCall(db, who, 0, [], [], Unset);
            r.1 == SemLocked && Holding(db, who, 0) == 0 && Holding(r.0, who, 0) == 1
  {
    hide Held, Good, DeleteCall, TakenInDelete, OursOnly;
    var holder: Node;
    db, holder, who := OneHolder(2);
    DeleteCallMeans(db, who, 0, [], [], Unset);
    assert !OursOnly(db[0], who) by { NotOurs(db[0], who); }
  }

  lemma NotOurs(e: Entry, who: Node)
    requires Held(e.locks, Only(who)) < e.numLocks
    ensures !OursOnly(e, who)
  {
    hide Held;
  }

  /** A post by a node that does not own the lock is refused, although one is held. */
  lemma PostNeedsOwnership() returns (db: Db, who: Node)
    ensures GoodDb(db) && AllShaped(db) && |db| > 0 && db[0].valid && db[0].numLocks == 1
    ensures Release(db[0], Only(who), 1, Success) == Released(db[0], false, NotLocked(db[0].kind))
  {
    hide Held, Good, Release;
    var holder: Node;
    db, holder, who := OneHolder(1);
    ReleaseMeans(db[0], Only(who), 1, Success);
  }

  /** A try at a set (a timeout of 1) that fails leaves the status as the caller set it, at success. */
  lemma FailedTrySaysSuccess() returns (db: Db, who: Node)
    ensures GoodDb(db) && AllShaped(db) && |db| > 0 && Real(who)
    ensures var r := LockMultiple(db, who, [0], 1, true, 1, 0, [[]], Success);
            r.wait == Refused && r.status == Success && Holding(r.db, who, 0) == 0
  {
    hide Held, Good, GoodDb, AcquireMany, Times, Holding, Gained;
    var holder: Node;
    db, holder, who := OneHolder(1);
    OneTooMany(db, who);
  }

  lemma OneTooMany(db: Db, who: Node)
    requires GoodDb(db) && AllShaped(db) && |db| > 0 && Real(who) && !Fits(db[0], 1)
    requires Held(db[0].locks, Only(who)) == 0
    ensures AcquireMany(db, who, [0], 0, 1, true, 0) == (db, 0) && Holding(db, who, 0) == 0
  {
    hide Held, GoodDb, Good, Acquire;
    AttemptMeans(db, who, 0, 1);
  }
}
