/**
  * The MRAPI semaphore database as a value, and what each critical section does to it.
  *
  * A semaphore entry is a slot array with owners beside a redundant counter. Everything between
  * taking and leaving the database lock is one atomic step by one node, so a step is a function on
  * databases; the loops of the source appear here as functions that walk the slots in the same order.
  */
module SemSpec {

  const MAX_SEMS: nat := 4096
  const MAX_SHARED_LOCKS: nat := 256
  const MAX_NODES: nat := 16
  const MAX_DOMAINS: nat := 2
  const ANONYMOUS: nat := 255
  const LOCKS_ALL: int := -1
  const TIMEOUT_INFINITE: nat := 0xFFFF_FFFF

  datatype Option<T> = None | Some(value: T)

  // Reader/writer locks, semaphores and mutexes share one record; the tag only picks error codes.
  datatype Kind = Rwl | Sem | Mutex

  datatype Status = Success | Timeout | Locked(kind: Kind) | NotLocked(kind: Kind) | Invalid(kind: Kind)
                  | Exists(kind: Kind) | SemLimit | LockLimit | SemLocked | Unset

  // A domain index and a node index, as the caller is known to the database.
  datatype Node = Node(d: nat, n: nat)

  datatype Slot = Slot(valid: bool, locked: bool, owner: Node)

  // A key is chosen by the user, or is the address of the entry it belongs to.
  datatype Key = Id(id: int) | Address(entry: nat)

  datatype Entry = Entry(
    kind: Kind,
    key: Key,
    valid: bool,
    deleted: bool,
    extErr: bool,
    limit: int,
    numLocks: int,
    locks: seq<Slot>)

  type Db = seq<Entry>

  // Whose locks a walk over the slots looks at: everyone's, one node's, or (for deleting) one node's
  // together with those of an anonymous holder in its domain.
  datatype Whose = Anyone | Only(node: Node) | OnlyOrAnonymous(node: Node)

  predicate Locks(slot: Slot, whose: Whose) {
    && slot.valid && slot.locked
    && match whose
       case Anyone => true
       case Only(node) => slot.owner == node
       case OnlyOrAnonymous(node) => slot.owner.d == node.d && (slot.owner.n == node.n || slot.owner.n == ANONYMOUS)
  }

  // How many of the slots are locked, by anyone or by one node.
  function Held(locks: seq<Slot>, whose: Whose): nat {
    if locks == [] then 0
    else Held(locks[..|locks| - 1], whose) + if Locks(locks[|locks| - 1], whose) then 1 else 0
  }

  predicate Shaped(e: Entry) {
    0 <= e.limit <= |e.locks|
  }

  predicate AllShaped(db: Db) {
    forall s :: 0 <= s < |db| ==> Shaped(db[s])
  }

  // ---- acquiring ----

  datatype Walk = Walk(locks: seq<Slot>, count: int, done: bool)

  // Lock free slots from l on, until `want` have been added.
  function Take(locks: seq<Slot>, l: nat, limit: nat, who: Node, added: int, want: int): Walk
    requires limit <= |locks|
    decreases limit - l
  {
    if l >= limit then Walk(locks, added, false)
    else
      var free := locks[l].valid && !locks[l].locked;
      var locks1 := if free then locks[l := Slot(true, true, who)] else locks;
      var added1 := if free then added + 1 else added;
      if added1 == want then Walk(locks1, added1, true)
      else Take(locks1, l + 1, limit, who, added1, want)
  }

  // Lock every free slot from l on; the count includes the slots the caller already owned.
  function Collect(locks: seq<Slot>, l: nat, limit: nat, who: Node, added: int): Walk
    requires limit <= |locks|
    decreases limit - l
  {
    if l >= limit then Walk(locks, added, false)
    else
      var free := locks[l].valid && !locks[l].locked;
      var locks1 := if free then locks[l := Slot(true, true, who)] else locks;
      var added1 := if free || Locks(locks[l], Only(who)) then added + 1 else added;
      if added1 == limit then Walk(locks1, added1, true)
      else Collect(locks1, l + 1, limit, who, added1)
  }

  datatype Acquired = Acquired(entry: Entry, added: int, status: Status)

  // One attempt on one semaphore; a negative request asks for all of its locks.
  function Acquire(e: Entry, who: Node, want: int, status: Status): Acquired
    requires Shaped(e)
  {
    if want < 0 then
      var w := Collect(e.locks, 0, e.limit, who, 0);
      var taken := Held(w.locks, Anyone) - Held(e.locks, Anyone);
      Acquired(e.(locks := w.locks, numLocks := e.numLocks + taken), w.count, if w.done then Success else status)
    else if e.limit - e.numLocks - want >= 0 then
      var w := Take(e.locks, 0, e.limit, who, 0, want);
      Acquired(e.(locks := w.locks, numLocks := e.numLocks + w.count), w.count, if w.done then Success else status)
    else
      Acquired(e, 0, Locked(e.kind))
  }

  // ---- releasing ----

  // Unlock matching slots from l on, until `left` of them are gone.
  function Drop(locks: seq<Slot>, l: nat, limit: nat, whose: Whose, removed: int, left: int): Walk
    requires limit <= |locks|
    decreases limit - l
  {
    if l >= limit then Walk(locks, removed, false)
    else if Locks(locks[l], whose) then
      var locks1 := locks[l := locks[l].(locked := false)];
      if left - 1 <= 0 then Walk(locks1, removed + 1, true)
      else Drop(locks1, l + 1, limit, whose, removed + 1, left - 1)
    else Drop(locks, l + 1, limit, whose, removed, left)
  }

  datatype Released = Released(entry: Entry, ok: bool, status: Status)

  // Unlock and post free the caller's own locks; signalling frees anyone's. The request is compared
  // as an unsigned number, so a negative one is never satisfied.
  function Release(e: Entry, whose: Whose, want: int, status: Status): Released
    requires Shaped(e)
  {
    if !e.valid then Released(e, false, Invalid(e.kind))
    else if want < 0 || Held(e.locks[..e.limit], whose) < want then Released(e, false, NotLocked(e.kind))
    else
      var w := Drop(e.locks, 0, e.limit, whose, 0, want);
      Released(e.(locks := w.locks, numLocks := e.numLocks - want), true, if w.done then Success else status)
  }

  // ---- deleting ----

  predicate MayDelete(e: Entry, who: Node)
    requires Shaped(e)
  {
    Held(e.locks[..e.limit], OnlyOrAnonymous(who)) == e.limit
  }

  function Delete(e: Entry, who: Node): Entry
    requires Shaped(e)
  {
    if MayDelete(e, who) && e.valid
    then e.(valid := false, deleted := e.deleted || e.extErr)
    else e
  }

  // ---- creating ----

  const ZERO_SLOT := Slot(false, false, Node(0, 0))

  function ZeroEntry(): Entry {
    Entry(Rwl, Id(0), false, false, false, 0, 0, seq(MAX_SHARED_LOCKS, l => ZERO_SLOT))
  }

  function EmptyDb(): (db: Db)
    ensures |db| == MAX_SEMS && AllShaped(db)
  {
    seq(MAX_SEMS, s => ZeroEntry())
  }

  function NewSlots(limit: nat, numLocks: nat, who: Node): seq<Slot> {
    seq(MAX_SHARED_LOCKS, l requires 0 <= l =>
      if l < limit then (if l < numLocks then Slot(true, true, who) else Slot(true, false, Node(0, 0)))
      else ZERO_SLOT)
  }

  // The first entry from s on that is in use under this key.
  function FindKey(db: Db, key: Key, s: nat): nat
    decreases |db| - s
  {
    if s >= |db| || (db[s].valid && db[s].key == key) then s else FindKey(db, key, s + 1)
  }

  // The first entry from s on that may be overwritten.
  function FindFree(db: Db, s: nat): nat
    decreases |db| - s
  {
    if s >= |db| || (!db[s].valid && !db[s].deleted) then s else FindFree(db, s + 1)
  }

  datatype Created = Created(db: Db, sem: Option<nat>, status: Status)

  // Creating without a key takes the entry's address for one.
  function Create(db: Db, who: Node, kind: Kind, key: Option<int>, extErr: bool, numLocks: nat, limit: nat): Created {
    if key.Some? && FindKey(db, Id(key.value), 0) < |db| then Created(db, None, Exists(kind))
    else
      var s := FindFree(db, 0);
      if s >= |db| then Created(db, None, SemLimit)
      else
        var k := if key.Some? then Id(key.value) else Address(s);
        Created(
          db[s := Entry(kind, k, true, false, extErr, limit, numLocks, NewSlots(limit, numLocks, who))],
          Some(s), Success)
  }

  predicate CreateGuard(numLocks: int, limit: int) {
    0 < limit <= MAX_SHARED_LOCKS && 0 <= numLocks <= limit
  }

  // ---- several semaphores at once ----

  predicate InRange(list: seq<nat>, db: Db) {
    forall i :: 0 <= i < |list| ==> list[i] < |db|
  }

  // Give back the request on list[j..i].
  function Rollback(db: Db, who: Node, list: seq<nat>, j: nat, i: nat, want: int): (r: Db)
    requires AllShaped(db) && InRange(list, db) && j <= i <= |list|
    ensures |r| == |db| && AllShaped(r)
    decreases i - j
  {
    if j >= i then db
    else
      DropLength(db[list[j]].locks, 0, db[list[j]].limit, Only(who), 0, want);
      Rollback(db[list[j] := Release(db[list[j]], Only(who), want, Unset).entry], who, list, j + 1, i, want)
  }

  function AcquireMany(db: Db, who: Node, list: seq<nat>, i: nat, want: int, waitall: bool, total: int): (r: (Db, int))
    requires AllShaped(db) && InRange(list, db) && i <= |list|
    ensures |r.0| == |db| && AllShaped(r.0)
    decreases |list| - i
  {
    if i >= |list| then (db, total)
    else
      AcquireShaped(db[list[i]], who, want, Unset);
      var a := Acquire(db[list[i]], who, want, Unset);
      var db1 := db[list[i] := a.entry];
      if a.added != want then
        if waitall then (Rollback(db1, who, list, 0, i, want), 0)
        else AcquireMany(db1, who, list, i + 1, want, waitall, 0)
      else if !waitall && 0 < a.added then (db1, total + a.added)
      else AcquireMany(db1, who, list, i + 1, want, waitall, total + a.added)
  }

  // ---- the walks keep the number of slots ----

  lemma TakeLength(locks: seq<Slot>, l: nat, limit: nat, who: Node, added: int, want: int)
    requires limit <= |locks|
    ensures |Take(locks, l, limit, who, added, want).locks| == |locks|
    decreases limit - l
  {
  }

  lemma CollectLength(locks: seq<Slot>, l: nat, limit: nat, who: Node, added: int)
    requires limit <= |locks|
    ensures |Collect(locks, l, limit, who, added).locks| == |locks|
    decreases limit - l
  {
  }

  lemma DropLength(locks: seq<Slot>, l: nat, limit: nat, whose: Whose, removed: int, left: int)
    requires limit <= |locks|
    ensures |Drop(locks, l, limit, whose, removed, left).locks| == |locks|
    decreases limit - l
  {
  }

  lemma AcquireShaped(e: Entry, who: Node, want: int, status: Status)
    requires Shaped(e)
    ensures Shaped(Acquire(e, who, want, status).entry)
  {
    TakeLength(e.locks, 0, e.limit, who, 0, want);
    CollectLength(e.locks, 0, e.limit, who, 0);
  }

  lemma ReleaseShaped(e: Entry, whose: Whose, want: int, status: Status)
    requires Shaped(e)
    ensures Shaped(Release(e, whose, want, status).entry)
  {
    DropLength(e.locks, 0, e.limit, whose, 0, want);
  }

  // ---- steps and runs ----

  /** One atomic step: a span under the database lock, by one node. */
  datatype Event =
    | Creating(who: Node, kind: Kind, key: Option<int>, extErr: bool, numLocks: int, limit: int)
    | Acquiring(who: Node, sem: nat, want: int)
    | AcquiringMany(who: Node, sems: seq<nat>, want: int, waitall: bool)
    | Releasing(who: Node, sem: nat, want: int)
    | Signalling(who: Node, sem: nat, want: int)
    | Deleting(who: Node, sem: nat)

  // The node indices the runtime hands out.
  predicate Real(who: Node) {
    who.d < MAX_DOMAINS && who.n < MAX_NODES
  }

  // What callers must respect: nobody asks for zero locks (the lock call returns at once, the unlock
  // call would fail its assertion), and a set is asked for a positive number.
  predicate Legal(ev: Event) {
    Real(ev.who) &&
    match ev
    case Acquiring(_, _, want) => want != 0
    case AcquiringMany(_, _, want, _) => want >= 1
    case Releasing(_, _, want) => want != 0
    case Signalling(_, _, want) => want != 0
    case _ => true
  }

  // Creation refused by the guards and handles that do not decode leave the database as it is.
  function Step(db: Db, ev: Event): (r: Db)
    requires AllShaped(db)
    ensures AllShaped(r) && |r| == |db|
  {
    match ev
    case Creating(who, kind, key, extErr, numLocks, limit) =>
      if CreateGuard(numLocks, limit) then Create(db, who, kind, key, extErr, numLocks, limit).db else db
    case Acquiring(who, s, want) =>
      if s >= |db| then db
      else
        AcquireShaped(db[s], who, want, Unset);
        db[s := Acquire(db[s], who, want, Unset).entry]
    case AcquiringMany(who, sems, want, waitall) =>
      if !InRange(sems, db) then db else AcquireMany(db, who, sems, 0, want, waitall, 0).0
    case Releasing(who, s, want) =>
      if s >= |db| then db
      else
        ReleaseShaped(db[s], Only(who), want, Unset);
        db[s := Release(db[s], Only(who), want, Unset).entry]
    case Signalling(_, s, want) =>
      if s >= |db| then db
      else
        ReleaseShaped(db[s], Anyone, want, Unset);
        db[s := Release(db[s], Anyone, want, Unset).entry]
    case Deleting(who, s) =>
      if s >= |db| then db else db[s := Delete(db[s], who)]
  }

  function Run(db: Db, events: seq<Event>): (r: Db)
    requires AllShaped(db)
    ensures AllShaped(r) && |r| == |db|
    decreases |events|
  {
    if events == [] then db else Run(Step(db, events[0]), events[1..])
  }

  // ---- blocking calls ----

  /** How a blocking call stands: it got the locks, gave up, or is still waiting when the schedule ends. */
  datatype Wait = Granted | Refused | Waiting

  datatype Locking = Locking(db: Db, wait: Wait, status: Status)

  // A set call is satisfied by every lock asked for, or by any when it does not wait for all.
  predicate Enough(got: int, want: int, count: nat, waitall: bool) {
    if waitall then got == want * count else 0 < got
  }

  // schedule[k] is what other nodes do while the caller yields for the k-th time.
  function LockMultiple(db: Db, who: Node, list: seq<nat>, want: int, waitall: bool, timeout: nat, time: nat,
                        schedule: seq<seq<Event>>, status: Status): (r: Locking)
    requires AllShaped(db) && InRange(list, db)
    ensures AllShaped(r.db) && |r.db| == |db|
    decreases |schedule|
  {
    var a := AcquireMany(db, who, list, 0, want, waitall, 0);
    if Enough(a.1, want, |list|, waitall) then Locking(a.0, Granted, Success)
    else if schedule == [] then Locking(a.0, Waiting, status)
    else
      var db1 := Run(a.0, schedule[0]);
      if timeout != TIMEOUT_INFINITE && time + 1 >= timeout
      then Locking(db1, Refused, if timeout != 1 then Timeout else status)
      else LockMultiple(db1, who, list, want, waitall, timeout, time + 1, schedule[1..], status)
  }

  function LockOne(db: Db, who: Node, s: nat, want: int, got: int, timeout: nat, time: nat,
                   schedule: seq<seq<Event>>, status: Status): (r: Locking)
    requires AllShaped(db) && s < |db|
    ensures AllShaped(r.db) && |r.db| == |db|
    decreases |schedule|
  {
    AcquireShaped(db[s], who, want, status);
    var a := Acquire(db[s], who, want, status);
    var db1 := db[s := a.entry];
    var got1 := got + a.added;
    if (want < 0 && a.status == Success) || want == got1 then Locking(db1, Granted, Success)
    else
      var want1 := if want > 0 then want - got1 else want;
      if schedule == [] then Locking(db1, Waiting, a.status)
      else
        var db2 := Run(db1, schedule[0]);
        if timeout != TIMEOUT_INFINITE && time + 1 >= timeout
        then Locking(db2, Refused, if timeout != 1 then Timeout else a.status)
        else LockOne(db2, who, s, want1, got1, timeout, time + 1, schedule[1..], a.status)
  }

  // Deleting through the API: collect every lock in one attempt, then retire the entry. Others may run
  // while the attempt yields, and again before the entry is retired.
  function DeleteCall(db: Db, who: Node, s: nat, yielded: seq<Event>, between: seq<Event>, status: Status): (r: (Db, Status))
    requires AllShaped(db) && s < |db|
    ensures |r.0| == |db|
  {
    var locked := LockOne(db, who, s, LOCKS_ALL, 0, 0, 0, [yielded], status);
    var db1 := Run(locked.db, between);
    (db1[s := Delete(db1[s], who)], if MayDelete(db1[s], who) then Success else SemLocked)
  }
}
