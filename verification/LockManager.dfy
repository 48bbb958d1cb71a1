/** The lock table itself: one queue of requests per item, no waiting. */
module LockManager {
  import opened LockModel
  import S = Schedules

  datatype GroupMode = NonLock | IS | IX | S | SIX | X
  datatype Request = Request(txn: TxnId, mode: LockMode, granted: bool)
  datatype Queue = Queue(requests: seq<Request>, group: GroupMode)

  function GroupModeFor(m: LockMode): GroupMode
  {
    match m
    case Shared => S
    case Exclusive => X
    case IntentShared => IS
    case IntentExclusive => IX
    case SharedIntentExclusive => SIX
  }

  function Rank(g: GroupMode): nat
  {
    match g
    case NonLock => 0
    case IS => 1
    case IX => 2
    case S => 3
    case SIX => 4
    case X => 5
  }

  /** More rights rank higher; of the two modes in the middle, which do not compare, S ranks above IX. */
  lemma RankMeans(a: LockMode, b: LockMode)
    ensures Rank(NonLock) < Rank(GroupModeFor(a))
    ensures Rights(a) < Rights(b) ==> Rank(GroupModeFor(a)) < Rank(GroupModeFor(b))
    ensures Rank(GroupModeFor(IntentExclusive)) < Rank(GroupModeFor(Shared))
    ensures GroupModeFor(a) == GroupModeFor(b) <==> a == b
  {
    assert ReadAll in Rights(Shared) && ReadAll !in Rights(IntentExclusive) && ReadAll !in Rights(IntentShared);
    assert WriteSome in Rights(IntentExclusive) && WriteSome !in Rights(Shared) && WriteSome !in Rights(IntentShared);
    assert WriteAll in Rights(Exclusive) && WriteAll !in Rights(Shared) && WriteAll !in Rights(SharedIntentExclusive);
    assert WriteAll !in Rights(IntentExclusive);
  }

  ghost predicate HasRequest(rs: seq<Request>, t: TxnId)
  {
    exists i :: 0 <= i < |rs| && rs[i].txn == t
  }

  ghost predicate OneEach(rs: seq<Request>)
  {
    forall i, j :: 0 <= i < j < |rs| ==> rs[i].txn != rs[j].txn
  }

  ghost predicate AllGranted(rs: seq<Request>)
  {
    forall i :: 0 <= i < |rs| ==> rs[i].granted
  }

  /** The group mode is the strongest mode among the requests, by rank. */
  ghost predicate IsStrongest(rs: seq<Request>, g: GroupMode)
  {
    && (forall i :: 0 <= i < |rs| && rs[i].granted ==> Rank(GroupModeFor(rs[i].mode)) <= Rank(g))
    && (g == NonLock || exists i :: 0 <= i < |rs| && rs[i].granted && GroupModeFor(rs[i].mode) == g)
  }

  ghost predicate QueueOk(q: Queue)
  {
    q.requests != [] && OneEach(q.requests) && AllGranted(q.requests) && IsStrongest(q.requests, q.group)
  }

  ghost predicate Listed(rs: seq<Request>, i: nat, held: Holds, item: Item)
    requires i < |rs|
  {
    Hold(item, rs[i].txn) in held && held[Hold(item, rs[i].txn)] == rs[i].mode
  }

  /** The queue of an item lists exactly the holds on it. */
  ghost predicate Lists(rs: seq<Request>, held: Holds, item: Item)
  {
    && (forall i :: 0 <= i < |rs| ==> Listed(rs, i, held, item))
    && (forall t :: Hold(item, t) in held ==> HasRequest(rs, t))
  }

  ghost predicate TableOk(table: map<Item, Queue>, held: Holds)
  {
    && (forall item :: item in table ==> QueueOk(table[item]) && Lists(table[item].requests, held, item))
    && (forall h :: h in held ==> h.item in table)
  }

  function Requests(table: map<Item, Queue>, item: Item): seq<Request>
  {
    if item in table then table[item].requests else []
  }

  method RefreshGroupLockMode(rs: seq<Request>) returns (group: GroupMode)
    ensures IsStrongest(rs, group)
    ensures forall i :: 0 <= i < |rs| && rs[i].granted ==> Rank(GroupModeFor(rs[i].mode)) <= Rank(group)
    ensures group != NonLock ==> exists i :: 0 <= i < |rs| && rs[i].granted && GroupModeFor(rs[i].mode) == group
  {
    group := NonLock;
    for i := 0 to |rs|
      invariant IsStrongest(rs[..i], group)
    {
      assert rs[..i + 1] == rs[..i] + [rs[i]];
      assert rs[..i + 1][i] == rs[i];
      var was := group;
      if rs[i].granted && Rank(GroupModeFor(rs[i].mode)) > Rank(group) {
        group := GroupModeFor(rs[i].mode);
      }
      if group == was && was != NonLock {
        var j :| 0 <= j < |rs[..i]| && rs[..i][j].granted && GroupModeFor(rs[..i][j].mode) == was;
        assert rs[..i + 1][j] == rs[..i][j];
      }
    }
    assert rs[..|rs|] == rs;
  }

  /** Where the transaction's request stands, or the end of the queue when it has none. */
  ghost predicate OwnSlot(rs: seq<Request>, t: TxnId, at: nat)
  {
    at <= |rs| && (at < |rs| ==> rs[at].txn == t) && (at == |rs| <==> !HasRequest(rs, t))
  }

  method FindRequest(rs: seq<Request>, t: TxnId) returns (at: nat)
    ensures OwnSlot(rs, t, at)
  {
    at := 0;
    while at < |rs| && rs[at].txn != t
      invariant at <= |rs|
      invariant forall j :: 0 <= j < at ==> rs[j].txn != t
    {
      at := at + 1;
    }
  }

  ghost predicate Conflicts(rs: seq<Request>, t: TxnId, mode: LockMode)
  {
    exists i :: 0 <= i < |rs| && rs[i].granted && rs[i].txn != t && !Compatible(rs[i].mode, mode)
  }

  method FindsConflict(rs: seq<Request>, t: TxnId, mode: LockMode) returns (found: bool)
    ensures found <==> Conflicts(rs, t, mode)
  {
    for i := 0 to |rs|
      invariant forall j :: 0 <= j < i && rs[j].granted && rs[j].txn != t ==> Compatible(rs[j].mode, mode)
    {
      if rs[i].granted && rs[i].txn != t && !Compatible(rs[i].mode, mode) {
        return true;
      }
    }
    return false;
  }

  class Transaction {
    const id: TxnId
    var state: TxnState
    var lockSet: set<Item>
    /** What rolling the transaction back would take back. */
    var writeSet: seq<S.WriteRecord>
    /** The number of its last log record. */
    var prevLsn: int
    var startTs: int

    constructor (id: TxnId)
      ensures this.id == id && state == Default && lockSet == {} && writeSet == [] && prevLsn == -1
    {
      this.id := id;
      state, lockSet, writeSet, prevLsn := Default, {}, [], -1;
    }
  }

  /** Locks come and go without touching what a transaction has written and logged. */
  twostate predicate KeepsItsWork(txn: Transaction)
    reads txn
  {
    txn.writeSet == old(txn.writeSet) && txn.prevLsn == old(txn.prevLsn) && txn.startTs == old(txn.startTs)
  }

  class Manager {
    var lockTable: map<Item, Queue>
    /** What the queues say, seen as one map. */
    ghost var held: Holds

    ghost predicate Valid()
      reads this
    {
      Harmony(held) && TableOk(lockTable, held)
    }

    /** The lock set of a transaction names exactly the items it holds. */
    ghost predicate Tracks(txn: Transaction)
      reads this, txn
    {
      txn.lockSet == ItemsOf(held, txn.id)
    }

    constructor ()
      ensures Valid() && held == map[]
    {
      lockTable := map[];
      held := map[];
    }

    /** Grants at once or refuses; a refusal changes nothing. */
    method Lock(txn: Transaction?, item: Item, mode: LockMode) returns (r: Outcome)
      requires Valid() && (txn != null ==> Tracks(txn))
      modifies this, txn
      ensures Valid() && (txn != null ==> Tracks(txn))
      ensures txn != null ==> txn.state == old(txn.state) && KeepsItsWork(txn)
      ensures txn == null ==> r == Granted && held == old(held) && lockTable == old(lockTable)
      ensures txn != null ==> r == LockOutcome(old(held), old(txn.state), txn.id, item, mode)
      ensures txn != null ==> held == AfterLock(old(held), old(txn.state), txn.id, item, mode)
      ensures txn != null ==> (r == Refused(LockOnShrinking) <==> txn.state.Shrinking?)
      ensures txn != null && !txn.state.Shrinking? ==>
        (r == Refused(DeadlockPrevention) <==>
          ClashesWithOther(old(held), txn.id, item, mode) && !Covers(old(held), txn.id, item, mode))
      ensures r.Refused? ==> held == old(held)
      ensures r.Granted? && txn != null ==> Covers(held, txn.id, item, mode)
    {
      if txn != null {
        LockMeans(held, txn.state, txn.id, item, mode);
      }
      if txn == null {
        return Granted;
      }
      if txn.state.Shrinking? {
        return Refused(LockOnShrinking);
      }
      LockKeepsHarmony(held, txn.state, txn.id, item, mode);
      r := Ask(txn, item, mode);
    }

    /** The part of locking done under the latch. */
    method Ask(txn: Transaction, item: Item, mode: LockMode) returns (r: Outcome)
      requires TableOk(lockTable, held) && Tracks(txn) && !txn.state.Shrinking?
      modifies this, txn`lockSet
      ensures TableOk(lockTable, held) && Tracks(txn)
      ensures r == LockOutcome(old(held), txn.state, txn.id, item, mode)
      ensures held == AfterLock(old(held), txn.state, txn.id, item, mode)
    {
      var answered, blocked, at := Decide(txn.id, item, mode);
      if !answered && blocked {
        return Refused(DeadlockPrevention);
      }
      if !answered {
        Grant(txn.id, item, mode, at);
      }
      txn.lockSet := txn.lockSet + {item};
      ItemsAfterGrant(old(held), txn.id, item, held[Hold(item, txn.id)]);
      return Granted;
    }

    /** Searches the queue of the item for the transaction's own request and for a conflicting one. */
    method Decide(t: TxnId, item: Item, mode: LockMode) returns (answered: bool, blocked: bool, at: nat)
      requires TableOk(lockTable, held)
      ensures answered <==> Answered(held, t, item, mode)
      ensures !answered ==> (blocked <==> Blocked(held, t, item, mode))
      ensures OwnSlot(Requests(lockTable, item), t, at)
    {
      var rs := Requests(lockTable, item);
      at := FindRequest(rs, t);
      QueueDecides(lockTable, held, t, item, mode, at);
      blocked := false;
      answered := at < |rs| && rs[at].granted && Answers(rs[at].mode, mode);
      if !answered {
        blocked := FindsConflict(rs, t, mode);
      }
    }

    /** Writes the granted mode over the transaction's request, or at the end of the queue. */
    method Grant(t: TxnId, item: Item, mode: LockMode, at: nat)
      requires TableOk(lockTable, held) && OwnSlot(Requests(lockTable, item), t, at)
      modifies this
      ensures TableOk(lockTable, held)
      ensures held == old(held)[Hold(item, t) := mode]
    {
      var rs := Requests(lockTable, item);
      RequestsOfItem(lockTable, held, item);
      GrantedQueue(rs, held, t, item, mode, at);
      var next := if at < |rs| then rs[at := Request(t, mode, true)] else rs + [Request(t, mode, true)];
      var group := RefreshGroupLockMode(next);
      QueueReplaced(lockTable, held, item, held[Hold(item, t) := mode], Queue(next, group));
      lockTable := lockTable[item := Queue(next, group)];
      held := held[Hold(item, t) := mode];
    }

    /** Takes the transaction's request out of the queue, and the queue out of the table when it empties. */
    method Unlock(txn: Transaction?, item: Item) returns (r: bool)
      requires Valid() && (txn != null ==> Tracks(txn))
      modifies this, txn
      ensures Valid() && (txn != null ==> Tracks(txn) && KeepsItsWork(txn))
      ensures txn == null ==> r && held == old(held)
      ensures txn != null ==> held == old(held) - {Hold(item, txn.id)}
      ensures txn != null ==> (r <==> item in old(lockTable))
      ensures txn != null ==>
        txn.state == if Hold(item, txn.id) in old(held) && old(txn.state).Growing? then Shrinking else old(txn.state)
    {
      if txn == null {
        return true;
      }
      if item !in lockTable {
        assert Hold(item, txn.id).item !in lockTable;
        return false;
      }
      var rs := Requests(lockTable, item);
      RequestsOfItem(lockTable, held, item);
      var at := FindRequest(rs, txn.id);
      OwnRequest(rs, held, txn.id, item, at);
      if at == |rs| {
        return true;
      }
      var next := rs[..at] + rs[at + 1..];
      RemovedQueue(rs, held, txn.id, item, at);
      txn.lockSet := txn.lockSet - {item};
      var group := RefreshGroupLockMode(next);
      QueueShortened(lockTable, held, txn.id, item, Queue(next, group));
      ItemsAfterUnlock(held, txn.id, item);
      if next == [] {
        lockTable := lockTable - {item};
      } else {
        lockTable := lockTable[item := Queue(next, group)];
      }
      held := held - {Hold(item, txn.id)};
      if txn.state.Growing? {
        txn.state := Shrinking;
      }
      return true;
    }

    /** The loop that ends both commit and abort: every item of the lock set is unlocked. */
    method UnlockAll(txn: Transaction)
      requires Valid() && Tracks(txn)
      modifies this, txn
      ensures Valid() && Tracks(txn) && KeepsItsWork(txn)
      ensures held == Released(old(held), txn.id) && txn.lockSet == {}
      ensures forall h :: h in held <==> h in old(held) && h.txn != txn.id
      ensures forall h :: h in held ==> held[h] == old(held)[h]
    {
      var locks := txn.lockSet;
      while locks != {}
        invariant Valid() && Tracks(txn) && KeepsItsWork(txn) && txn.lockSet == locks
        invariant Released(held, txn.id) == Released(old(held), txn.id)
        decreases locks
      {
        var item :| item in locks;
        ghost var before := held;
        var _ := Unlock(txn, item);
        ReleasedAfterUnlock(before, txn.id, item);
        ItemsAfterUnlock(before, txn.id, item);
        locks := locks - {item};
      }
      NothingLeft(held, txn.id);
    }
  }

  // ---------- the queue and the map move together ----------

  lemma RequestsOfItem(table: map<Item, Queue>, held: Holds, item: Item)
    requires TableOk(table, held)
    ensures var rs := Requests(table, item); OneEach(rs) && AllGranted(rs) && Lists(rs, held, item)
  {
    forall t | Hold(item, t) in held ensures item in table {
      assert Hold(item, t).item == item;
    }
  }

  lemma OwnRequest(rs: seq<Request>, held: Holds, t: TxnId, item: Item, at: nat)
    requires Lists(rs, held, item)
    requires OwnSlot(rs, t, at)
    ensures at < |rs| <==> Hold(item, t) in held
    ensures at < |rs| ==> held[Hold(item, t)] == rs[at].mode
  {
    assert at < |rs| ==> Listed(rs, at, held, item);
  }

  lemma ListsElsewhere(rs: seq<Request>, held: Holds, next: Holds, item: Item)
    requires Lists(rs, held, item)
    requires forall h: Hold :: h.item == item ==> (h in next <==> h in held) && (h in held ==> next[h] == held[h])
    ensures Lists(rs, next, item)
  {
    forall i | 0 <= i < |rs| ensures Listed(rs, i, next, item) {
      assert Listed(rs, i, held, item);
      assert Hold(item, rs[i].txn).item == item;
    }
    forall t | Hold(item, t) in next ensures HasRequest(rs, t) {
      assert Hold(item, t).item == item;
    }
  }

  ghost predicate SameElsewhere(held: Holds, next: Holds, item: Item)
  {
    forall h: Hold :: h.item != item ==> (h in next <==> h in held) && (h in held ==> next[h] == held[h])
  }

  lemma QueueReplaced(table: map<Item, Queue>, held: Holds, item: Item, next: Holds, q: Queue)
    requires TableOk(table, held) && SameElsewhere(held, next, item)
    requires QueueOk(q) && Lists(q.requests, next, item)
    ensures TableOk(table[item := q], next)
  {
    forall other | other in table && other != item ensures Lists(table[other].requests, next, other) {
      ListsElsewhere(table[other].requests, held, next, other);
    }
  }

  lemma QueueShortened(table: map<Item, Queue>, held: Holds, t: TxnId, item: Item, q: Queue)
    requires TableOk(table, held) && item in table
    requires OneEach(q.requests) && AllGranted(q.requests) && IsStrongest(q.requests, q.group)
    requires Lists(q.requests, held - {Hold(item, t)}, item)
    ensures TableOk(if q.requests == [] then table - {item} else table[item := q], held - {Hold(item, t)})
  {
    var next := held - {Hold(item, t)};
    assert SameElsewhere(held, next, item);
    if q.requests != [] {
      QueueReplaced(table, held, item, next, q);
    } else {
      forall other | other in table && other != item ensures Lists(table[other].requests, next, other) {
        ListsElsewhere(table[other].requests, held, next, other);
      }
      forall h | h in next ensures h.item in table - {item} {
        assert h == Hold(h.item, h.txn);
        assert h.item == item ==> HasRequest(q.requests, h.txn);
      }
    }
  }

  lemma ConflictIsBlock(rs: seq<Request>, held: Holds, t: TxnId, item: Item, mode: LockMode)
    requires Lists(rs, held, item) && AllGranted(rs)
    ensures Conflicts(rs, t, mode) <==> Blocked(held, t, item, mode)
  {
    if Blocked(held, t, item, mode) {
      var h :| h in held && h.item == item && h.txn != t && !Compatible(held[h], mode);
      assert h == Hold(item, h.txn);
      var i :| 0 <= i < |rs| && rs[i].txn == h.txn;
      assert rs[i].granted && Listed(rs, i, held, item);
    } else if Conflicts(rs, t, mode) {
      var i :| 0 <= i < |rs| && rs[i].granted && rs[i].txn != t && !Compatible(rs[i].mode, mode);
      assert Listed(rs, i, held, item) ==> Blocked(held, t, item, mode);
    }
  }

  /** Searching the queue answers what the map of holds would. */
  lemma QueueDecides(table: map<Item, Queue>, held: Holds, t: TxnId, item: Item, mode: LockMode, at: nat)
    requires TableOk(table, held)
    requires OwnSlot(Requests(table, item), t, at)
    ensures var rs := Requests(table, item);
      && (Hold(item, t) in held <==> at < |rs|)
      && (Answered(held, t, item, mode) <==> at < |rs| && rs[at].granted && Answers(rs[at].mode, mode))
      && (Blocked(held, t, item, mode) <==> Conflicts(rs, t, mode))
  {
    RequestsOfItem(table, held, item);
    OwnRequest(Requests(table, item), held, t, item, at);
    ConflictIsBlock(Requests(table, item), held, t, item, mode);
  }

  lemma GrantedQueue(rs: seq<Request>, held: Holds, t: TxnId, item: Item, mode: LockMode, at: nat)
    requires OneEach(rs) && AllGranted(rs) && Lists(rs, held, item)
    requires OwnSlot(rs, t, at)
    ensures var next := if at < |rs| then rs[at := Request(t, mode, true)] else rs + [Request(t, mode, true)];
      OneEach(next) && AllGranted(next) && Lists(next, held[Hold(item, t) := mode], item)
  {
    var next := if at < |rs| then rs[at := Request(t, mode, true)] else rs + [Request(t, mode, true)];
    assert next[at].txn == t;
    var more := held[Hold(item, t) := mode];
    forall i | 0 <= i < |next| ensures Listed(next, i, more, item) {
      assert i != at ==> Listed(rs, i, held, item);
    }
    forall u | Hold(item, u) in held ensures HasRequest(next, u) {
      var i :| 0 <= i < |rs| && rs[i].txn == u;
      assert next[i].txn == u;
    }
  }

  lemma RemovedQueue(rs: seq<Request>, held: Holds, t: TxnId, item: Item, at: nat)
    requires OneEach(rs) && AllGranted(rs) && Lists(rs, held, item)
    requires at < |rs| && rs[at].txn == t
    ensures var next := rs[..at] + rs[at + 1..];
      OneEach(next) && AllGranted(next) && Lists(next, held - {Hold(item, t)}, item)
  {
    var next := rs[..at] + rs[at + 1..];
    var less := held - {Hold(item, t)};
    forall i | 0 <= i < |next| ensures Listed(next, i, less, item) {
      var j := if i < at then i else i + 1;
      assert next[i] == rs[j] && Listed(rs, j, held, item);
    }
    forall u | u != t && Hold(item, u) in held ensures HasRequest(next, u) {
      var i :| 0 <= i < |rs| && rs[i].txn == u;
      assert next[if i < at then i else i - 1].txn == u;
    }
  }

  lemma ItemsAfterGrant(held: Holds, t: TxnId, item: Item, mode: LockMode)
    ensures ItemsOf(held[Hold(item, t) := mode], t) == ItemsOf(held, t) + {item}
    ensures Hold(item, t) in held && held[Hold(item, t)] == mode ==> held[Hold(item, t) := mode] == held
  {
    var next := held[Hold(item, t) := mode];
    assert Hold(item, t) in next;
    forall x | x in ItemsOf(held, t) ensures x in ItemsOf(next, t) {
      assert Hold(x, t) in next;
    }
  }

  lemma ItemsAfterUnlock(held: Holds, t: TxnId, item: Item)
    ensures ItemsOf(held - {Hold(item, t)}, t) == ItemsOf(held, t) - {item}
  {
    var next := held - {Hold(item, t)};
    forall x | x in ItemsOf(held, t) && x != item ensures x in ItemsOf(next, t) {
      assert Hold(x, t) in next;
    }
  }

  lemma ReleasedAfterUnlock(held: Holds, t: TxnId, item: Item)
    ensures Released(held - {Hold(item, t)}, t) == Released(held, t)
  {}

  lemma NothingLeft(held: Holds, t: TxnId)
    requires ItemsOf(held, t) == {}
    ensures held == Released(held, t)
  {
    forall h | h in held ensures h.txn != t {
      assert h.txn == t ==> h.item in ItemsOf(held, t);
    }
  }
}
