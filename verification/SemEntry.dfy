/**
  * What one critical section means for one semaphore: the counter agrees with the slots, a request is
  * all or nothing, and only the locks named change hands.
  */
module SemEntry {
  import opened SemSpec

  // ---- counting slots ----

  function Bit(slot: Slot, whose: Whose): nat {
    if Locks(slot, whose) then 1 else 0
  }

  lemma {:induction false} HeldUpdate(locks: seq<Slot>, i: nat, x: Slot, whose: Whose)
    requires i < |locks|
    ensures Held(locks[i := x], whose) == Held(locks, whose) - Bit(locks[i], whose) + Bit(x, whose)
  {
    var last := |locks| - 1;
    if i == last {
      assert locks[i := x][..last] == locks[..last];
    } else {
      assert locks[i := x][..last] == locks[..last][i := x];
      HeldUpdate(locks[..last], i, x, whose);
    }
  }

  // If exactly the first k slots count, the count is k.
  lemma {:induction false} HeldFirst(locks: seq<Slot>, whose: Whose, k: nat)
    requires k <= |locks|
    requires forall l :: 0 <= l < |locks| ==> (Locks(locks[l], whose) <==> l < k)
    ensures Held(locks, whose) == k
  {
    if locks != [] {
      var last := |locks| - 1;
      if k == |locks| {
        assert Locks(locks[last], whose);
        HeldFirst(locks[..last], whose, k - 1);
      } else {
        HeldFirst(locks[..last], whose, k);
      }
    }
  }

  // Slots past a limit that hold nothing do not count.
  lemma {:induction false} HeldPrefix(locks: seq<Slot>, limit: nat, whose: Whose)
    requires limit <= |locks|
    requires forall l :: limit <= l < |locks| ==> !Locks(locks[l], whose)
    ensures Held(locks[..limit], whose) == Held(locks, whose)
  {
    if limit < |locks| {
      var last := |locks| - 1;
      assert !Locks(locks[last], whose);
      assert locks[..last][..limit] == locks[..limit];
      HeldPrefix(locks[..last], limit, whose);
    } else {
      assert locks[..limit] == locks;
    }
  }

  lemma {:induction false} HeldAtMost(locks: seq<Slot>, whose: Whose)
    ensures Held(locks, whose) <= |locks|
  {
    if locks != [] {
      HeldAtMost(locks[..|locks| - 1], whose);
    }
  }

  // A count that reaches the number of slots means that every slot counts.
  lemma {:induction false} HeldAll(locks: seq<Slot>, whose: Whose, i: nat)
    requires Held(locks, whose) == |locks|
    requires i < |locks|
    ensures Locks(locks[i], whose)
  {
    HeldAtMost(locks[..|locks| - 1], whose);
    if i < |locks| - 1 {
      HeldAll(locks[..|locks| - 1], whose, i);
    }
  }

  // A count above zero has a slot to show for it.
  lemma {:induction false} HeldSome(locks: seq<Slot>, whose: Whose) returns (i: nat)
    requires Held(locks, whose) > 0
    ensures i < |locks| && Locks(locks[i], whose)
  {
    var last := |locks| - 1;
    if Locks(locks[last], whose) {
      i := last;
    } else {
      i := HeldSome(locks[..last], whose);
    }
  }

  // Different nodes hold different slots.
  lemma {:induction false} HeldShared(locks: seq<Slot>, nodes: seq<Node>)
    requires forall i, j :: 0 <= i < j < |nodes| ==> nodes[i] != nodes[j]
    ensures TotalHeld(locks, nodes) <= Held(locks, Anyone)
  {
    if locks == [] {
      TotalNone(nodes);
    } else {
      var init := locks[..|locks| - 1];
      HeldShared(init, nodes);
      TotalSplit(locks, nodes);
    }
  }

  function TotalHeld(locks: seq<Slot>, nodes: seq<Node>): nat {
    if nodes == [] then 0 else Held(locks, Only(nodes[0])) + TotalHeld(locks, nodes[1..])
  }

  lemma {:induction false} TotalNone(nodes: seq<Node>)
    ensures TotalHeld([], nodes) == 0
  {
    if nodes != [] {
      TotalNone(nodes[1..]);
    }
  }

  lemma {:induction false} TotalSplit(locks: seq<Slot>, nodes: seq<Node>)
    requires locks != []
    requires forall i, j :: 0 <= i < j < |nodes| ==> nodes[i] != nodes[j]
    ensures var last := locks[|locks| - 1];
            TotalHeld(locks, nodes) == TotalHeld(locks[..|locks| - 1], nodes)
              + if Locks(last, Anyone) && last.owner in nodes then 1 else 0
  {
    if nodes != [] {
      TotalSplit(locks, nodes[1..]);
      assert nodes == [nodes[0]] + nodes[1..];
    }
  }

  // ---- the walks ----

  // Slots either stay as they are or go from free to the caller.
  ghost predicate OnlyTakes(before: seq<Slot>, after: seq<Slot>, limit: nat, who: Node) {
    && |after| == |before|
    && forall l :: 0 <= l < |before| ==>
         after[l] == before[l] || (l < limit && before[l].valid && !before[l].locked && after[l] == Slot(true, true, who))
  }

  ghost predicate NoneFree(locks: seq<Slot>, from: nat, limit: nat) {
    forall l :: from <= l < limit && l < |locks| && locks[l].valid ==> locks[l].locked
  }

  // Locking one free slot for a node adds one to its count and to the total, and to no other.
  lemma {:induction false} TakeOne(locks: seq<Slot>, l: nat, who: Node)
    requires l < |locks| && locks[l].valid && !locks[l].locked
    ensures var after := locks[l := Slot(true, true, who)];
            && Held(after, Anyone) == Held(locks, Anyone) + 1
            && Held(after, Only(who)) == Held(locks, Only(who)) + 1
            && forall other :: other != who ==> Held(after, Only(other)) == Held(locks, Only(other))
  {
    hide Held;
    var x := Slot(true, true, who);
    HeldUpdate(locks, l, x, Anyone);
    HeldUpdate(locks, l, x, Only(who));
    forall other | other != who
      ensures Held(locks[l := x], Only(other)) == Held(locks, Only(other))
    {
      HeldUpdate(locks, l, x, Only(other));
    }
  }

  // Taking moves slots from free to the caller, counts them, and stops short only when none is left.
  lemma {:induction false} TakeMeans(locks: seq<Slot>, l: nat, limit: nat, who: Node, added: int, want: int)
    requires limit <= |locks|
    requires added < want
    ensures var w := Take(locks, l, limit, who, added, want);
            && OnlyTakes(locks, w.locks, limit, who)
            && added <= w.count <= want
            && Held(w.locks, Anyone) == Held(locks, Anyone) + w.count - added
            && Held(w.locks, Only(who)) == Held(locks, Only(who)) + w.count - added
            && (forall other :: other != who ==> Held(w.locks, Only(other)) == Held(locks, Only(other)))
            && (w.done <==> w.count == want)
            && (!w.done ==> NoneFree(w.locks, l, limit))
    decreases limit - l
  {
    hide Held;
    if l < limit {
      var free := locks[l].valid && !locks[l].locked;
      if free {
        TakeOne(locks, l, who);
        if added + 1 != want {
          TakeMeans(locks[l := Slot(true, true, who)], l + 1, limit, who, added + 1, want);
        }
      } else {
        TakeMeans(locks, l + 1, limit, who, added, want);
      }
    }
  }

  ghost predicate AllBy(locks: seq<Slot>, from: nat, limit: nat, who: Node) {
    forall l :: from <= l < limit && l < |locks| ==> Locks(locks[l], Only(who))
  }

  // Collecting leaves no free slot, and reports success when the caller then owns every one.
  lemma {:induction false} CollectMeans(locks: seq<Slot>, l: nat, limit: nat, who: Node, added: int)
    requires l <= limit <= |locks|
    requires 0 <= added <= l
    ensures var w := Collect(locks, l, limit, who, added);
            && OnlyTakes(locks, w.locks, limit, who)
            && w.locks[..l] == locks[..l]
            && NoneFree(w.locks, l, limit)
            && Held(w.locks, Only(who)) - Held(locks, Only(who)) == Held(w.locks, Anyone) - Held(locks, Anyone)
            && (forall other :: other != who ==> Held(w.locks, Only(other)) == Held(locks, Only(other)))
            && w.count >= 0
            && (w.done <==> l < limit && added == l && AllBy(w.locks, l, limit, who))
    decreases limit - l
  {
    hide Held;
    if l < limit {
      var x := Slot(true, true, who);
      var free := locks[l].valid && !locks[l].locked;
      var locks1 := if free then locks[l := x] else locks;
      var added1 := if free || Locks(locks[l], Only(who)) then added + 1 else added;
      if free {
        TakeOne(locks, l, who);
      }
      var w := Collect(locks, l, limit, who, added);
      if added1 == limit {
        assert l + 1 == limit;
        assert w.locks == locks1;
      } else {
        CollectMeans(locks1, l + 1, limit, who, added1);
        assert w.locks[l] == w.locks[..l + 1][l] == locks1[l];
      }
    }
  }

  // Slots either stay as they are or are unlocked.
  ghost predicate OnlyDrops(before: seq<Slot>, after: seq<Slot>, limit: nat, whose: Whose) {
    && |after| == |before|
    && forall l :: 0 <= l < |before| ==>
         after[l] == before[l] || (l < limit && Locks(before[l], whose) && after[l] == before[l].(locked := false))
  }

  ghost predicate NoneHeld(locks: seq<Slot>, from: nat, limit: nat, whose: Whose) {
    forall l :: from <= l < limit && l < |locks| ==> !Locks(locks[l], whose)
  }

  // Unlocking one slot takes one off the counts it was in.
  lemma {:induction false} DropOne(locks: seq<Slot>, l: nat, whose: Whose)
    requires l < |locks| && Locks(locks[l], whose)
    ensures var after := locks[l := locks[l].(locked := false)];
            && Held(after, Anyone) == Held(locks, Anyone) - 1
            && Held(after, whose) == Held(locks, whose) - 1
            && (whose.Only? ==> forall other :: other != whose.node ==>
                  Held(after, Only(other)) == Held(locks, Only(other)))
            && forall other :: Held(after, Only(other)) <= Held(locks, Only(other)) <= Held(after, Only(other)) + 1
  {
    hide Held;
    var x := locks[l].(locked := false);
    HeldUpdate(locks, l, x, Anyone);
    HeldUpdate(locks, l, x, whose);
    forall other
      ensures whose.Only? && other != whose.node ==> Held(locks[l := x], Only(other)) == Held(locks, Only(other))
      ensures Held(locks[l := x], Only(other)) <= Held(locks, Only(other)) <= Held(locks[l := x], Only(other)) + 1
    {
      HeldUpdate(locks, l, x, Only(other));
    }
  }

  // No node has lost more than `n` locks, nor gained any.
  ghost predicate AtMostLess(before: seq<Slot>, after: seq<Slot>, n: int) {
    forall who :: Held(after, Only(who)) <= Held(before, Only(who)) <= Held(after, Only(who)) + n
  }

  // Dropping unlocks matching slots, counts them, and stops short only when none is left.
  lemma {:induction false} DropMeans(locks: seq<Slot>, l: nat, limit: nat, whose: Whose, removed: int, left: int)
    requires limit <= |locks|
    requires left >= 1
    ensures var w := Drop(locks, l, limit, whose, removed, left);
            && OnlyDrops(locks, w.locks, limit, whose)
            && removed <= w.count <= removed + left
            && Held(w.locks, Anyone) == Held(locks, Anyone) - (w.count - removed)
            && Held(w.locks, whose) == Held(locks, whose) - (w.count - removed)
            && (whose.Only? ==> forall other :: other != whose.node ==>
                  Held(w.locks, Only(other)) == Held(locks, Only(other)))
            && AtMostLess(locks, w.locks, w.count - removed)
            && (w.done <==> w.count == removed + left)
            && (!w.done ==> NoneHeld(w.locks, l, limit, whose))
    decreases limit - l
  {
    hide Held;
    if l < limit {
      if Locks(locks[l], whose) {
        DropOne(locks, l, whose);
        if left - 1 > 0 {
          DropMeans(locks[l := locks[l].(locked := false)], l + 1, limit, whose, removed + 1, left - 1);
        }
      } else {
        DropMeans(locks, l + 1, limit, whose, removed, left);
      }
    }
  }

  // ---- the invariant of one entry ----

  predicate Meta(e: Entry) {
    && |e.locks| == MAX_SHARED_LOCKS
    && 0 <= e.limit <= MAX_SHARED_LOCKS
    && forall l :: 0 <= l < MAX_SHARED_LOCKS ==>
         && (e.locks[l].valid <==> l < e.limit)
         && (e.locks[l].locked ==> l < e.limit && Real(e.locks[l].owner))
  }

  /** The counter is the number of locked slots; a semaphore that is not in use has none free. */
  predicate Good(e: Entry) {
    && Meta(e)
    && e.numLocks == Held(e.locks, Anyone)
    && (!e.valid ==> e.numLocks == e.limit)
    && (e.valid ==> e.limit >= 1)
  }

  lemma ZeroEntryGood()
    ensures Good(ZeroEntry())
  {
    HeldFirst(ZeroEntry().locks, Anyone, 0);
  }

  lemma HeldInLimit(e: Entry, whose: Whose)
    requires Meta(e)
    ensures Held(e.locks[..e.limit], whose) == Held(e.locks, whose) <= e.limit
  {
    hide Held;
    HeldPrefix(e.locks, e.limit, whose);
    HeldAtMost(e.locks[..e.limit], whose);
  }

  // With no slot free, the count is the limit, and conversely.
  lemma FullMeans(e: Entry)
    requires Meta(e)
    ensures NoneFree(e.locks, 0, e.limit) <==> Held(e.locks, Anyone) == e.limit
  {
    hide Held;
    if NoneFree(e.locks, 0, e.limit) {
      HeldFirst(e.locks, Anyone, e.limit);
    }
    HeldInLimit(e, Anyone);
    if Held(e.locks, Anyone) == e.limit {
      forall l | 0 <= l < e.limit
        ensures e.locks[l].locked
      {
        HeldAll(e.locks[..e.limit], Anyone, l);
      }
    }
  }

  // A node owns every slot exactly when its count is the limit.
  lemma OwnsAll(e: Entry, whose: Whose)
    requires Meta(e)
    ensures Held(e.locks, whose) == e.limit <==> forall l :: 0 <= l < e.limit ==> Locks(e.locks[l], whose)
  {
    hide Held;
    HeldInLimit(e, whose);
    if Held(e.locks, whose) == e.limit {
      forall l | 0 <= l < e.limit
        ensures Locks(e.locks[l], whose)
      {
        HeldAll(e.locks[..e.limit], whose, l);
      }
    } else if forall l :: 0 <= l < e.limit ==> Locks(e.locks[l], whose) {
      HeldFirst(e.locks, whose, e.limit);
    }
  }

  // Only the slots and the counter differ.
  predicate SameButLocks(e: Entry, e': Entry) {
    e' == e.(locks := e'.locks, numLocks := e'.numLocks)
  }

  // What other nodes own is untouched.
  ghost predicate OthersKeep(locks: seq<Slot>, locks': seq<Slot>, who: Node) {
    forall other :: other != who ==> Held(locks', Only(other)) == Held(locks, Only(other))
  }

  predicate Fits(e: Entry, want: int) {
    e.numLocks + want <= e.limit
  }

  /** A request for at least one lock gets exactly that many or leaves everything as it was. */
  lemma AcquireAllOrNothing(e: Entry, who: Node, want: int, status: Status)
    requires Good(e) && Real(who) && want >= 1
    ensures var a := Acquire(e, who, want, status);
            && Good(a.entry) && SameButLocks(e, a.entry)
            && (Fits(e, want) ==>
                  && e.valid && a.added == want && a.status == Success
                  && OnlyTakes(e.locks, a.entry.locks, e.limit, who)
                  && a.entry.numLocks == e.numLocks + want
                  && Held(a.entry.locks, Only(who)) == Held(e.locks, Only(who)) + want
                  && OthersKeep(e.locks, a.entry.locks, who))
            && (!Fits(e, want) ==> a.entry == e && a.added == 0 && a.status == Locked(e.kind))
  {
    hide Held, Take;
    if Fits(e, want) {
      TakeMeans(e.locks, 0, e.limit, who, 0, want);
      var w := Take(e.locks, 0, e.limit, who, 0, want);
      var e' := e.(locks := w.locks, numLocks := e.numLocks + w.count);
      if !w.done {
        FullMeans(e');
      }
    }
  }

  /** Asking for all locks takes every free one, whether or not the call then succeeds. */
  lemma AcquireEvery(e: Entry, who: Node, want: int, status: Status)
    requires Good(e) && Real(who) && want < 0
    ensures var a := Acquire(e, who, want, status);
            && Good(a.entry) && SameButLocks(e, a.entry)
            && OnlyTakes(e.locks, a.entry.locks, e.limit, who)
            && a.entry.numLocks == e.limit
            && Held(a.entry.locks, Only(who)) == Held(e.locks, Only(who)) + e.limit - e.numLocks
            && OthersKeep(e.locks, a.entry.locks, who)
            && a.added >= 0
            && a.status == if e.limit > 0 && Held(a.entry.locks, Only(who)) == e.limit then Success else status
  {
    hide Held, Collect;
    CollectMeans(e.locks, 0, e.limit, who, 0);
    var a := Acquire(e, who, want, status);
    FullMeans(a.entry);
    OwnsAll(a.entry, Only(who));
  }

  /** Release succeeds exactly when the locks are there, and then takes off exactly those. */
  lemma ReleaseMeans(e: Entry, whose: Whose, want: int, status: Status)
    requires Good(e) && want != 0 && !whose.OnlyOrAnonymous?
    ensures var r := Release(e, whose, want, status);
            && Good(r.entry) && SameButLocks(e, r.entry)
            && (r.ok <==> e.valid && 1 <= want <= Held(e.locks, whose))
            && (!r.ok ==> r.entry == e && r.status == if e.valid then NotLocked(e.kind) else Invalid(e.kind))
            && (r.ok ==>
                  && r.status == Success
                  && OnlyDrops(e.locks, r.entry.locks, e.limit, whose)
                  && r.entry.numLocks == e.numLocks - want
                  && Held(r.entry.locks, whose) == Held(e.locks, whose) - want
                  && AtMostLess(e.locks, r.entry.locks, want)
                  && (whose.Only? ==> OthersKeep(e.locks, r.entry.locks, whose.node)))
  {
    hide Held, Drop;
    HeldInLimit(e, whose);
    if e.valid && 1 <= want <= Held(e.locks, whose) {
      DropMeans(e.locks, 0, e.limit, whose, 0, want);
      var w := Drop(e.locks, 0, e.limit, whose, 0, want);
      if !w.done {
        HeldFirst(w.locks, whose, 0);
      }
    }
  }

  /** Delete clears `valid` only for a caller that owns every slot, alone or with an anonymous holder of
    * its domain; among the nodes the runtime hands out there is no anonymous one. */
  lemma DeleteMeans(e: Entry, who: Node)
    requires Good(e)
    ensures Good(Delete(e, who))
    ensures MayDelete(e, who) <==> forall l :: 0 <= l < e.limit ==> Locks(e.locks[l], OnlyOrAnonymous(who))
    ensures MayDelete(e, who) <==> Held(e.locks, Only(who)) == e.limit
    ensures MayDelete(e, who) ==> e.numLocks == e.limit
  {
    hide Held;
    HeldInLimit(e, OnlyOrAnonymous(who));
    OwnsAll(e, OnlyOrAnonymous(who));
    OwnsAll(e, Only(who));
    OwnsAll(e, Anyone);
    forall l | 0 <= l < e.limit
      ensures Locks(e.locks[l], OnlyOrAnonymous(who)) <==> Locks(e.locks[l], Only(who))
      ensures Locks(e.locks[l], Only(who)) ==> Locks(e.locks[l], Anyone)
    {
    }
    if MayDelete(e, who) {
      assert Held(e.locks, Anyone) == e.limit;
    }
  }

  // A fresh entry belongs to its creator up to the initial number of locks.
  lemma NewSlotsMeans(limit: nat, numLocks: nat, who: Node)
    requires CreateGuard(numLocks, limit)
    ensures var locks := NewSlots(limit, numLocks, who);
            && Held(locks, Anyone) == numLocks
            && Held(locks, Only(who)) == numLocks
            && forall other :: other != who ==> Held(locks, Only(other)) == 0
  {
    hide Held;
    var locks := NewSlots(limit, numLocks, who);
    HeldFirst(locks, Anyone, numLocks);
    HeldFirst(locks, Only(who), numLocks);
    forall other | other != who
      ensures Held(locks, Only(other)) == 0
    {
      HeldFirst(locks, Only(other), 0);
    }
  }
}
