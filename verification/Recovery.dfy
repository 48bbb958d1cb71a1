/** Redo and undo over the whole store, restarts in the middle of them, and what they guarantee. */
module Recovery {
  import L = LockModel
  import opened Records
  import opened Schedules
  import opened LogRecords
  import opened TwoPhase
  import opened Serializability
  import opened RecoveryModel

  // ---------- recovery is a list of absolute writes ----------

  datatype Change = Change(loc: Loc, image: Image)

  function Apply(s: Store, plan: seq<Change>): Store
    decreases |plan|
  {
    if plan == [] then s else
      var last := plan[|plan| - 1];
      Put(Apply(s, plan[..|plan| - 1]), last.loc, last.image)
  }

  function RedoPlan(log: seq<LogRecord>, winners: set<int>): seq<Change>
    decreases |log|
  {
    if log == [] then [] else
      var r := log[|log| - 1];
      RedoPlan(log[..|log| - 1], winners) + if r.IsWrite() && r.txn in winners then [Change(r.loc, r.After())] else []
  }

  function UndoPlan(log: seq<LogRecord>, losers: set<int>): seq<Change>
    decreases |log|
  {
    if log == [] then [] else
      var r := log[|log| - 1];
      (if r.IsWrite() && r.txn in losers then [Change(r.loc, r.Before())] else []) + UndoPlan(log[..|log| - 1], losers)
  }

  ghost function Plan(log: seq<LogRecord>): seq<Change>
  {
    RedoPlan(log, CommittedIn(log)) + UndoPlan(log, LosersIn(log))
  }

  lemma {:induction false} ApplyBoth(s: Store, a: seq<Change>, b: seq<Change>)
    ensures Apply(s, a + b) == Apply(Apply(s, a), b)
    decreases |b|
  {
    if b == [] {
      assert a + b == a;
    } else {
      var n := |b| - 1;
      assert (a + b)[..|a + b| - 1] == a + b[..n];
      ApplyBoth(s, a, b[..n]);
    }
  }

  lemma ApplyOne(s: Store, a: Change)
    ensures Apply(s, [a]) == Put(s, a.loc, a.image)
  {
    assert [a][..0] == [];
  }

  lemma {:induction false} RedoPlanAt(s: Store, log: seq<LogRecord>, winners: set<int>, x: Loc)
    ensures Get(Apply(s, RedoPlan(log, winners)), x) == RedoAt(log, winners, x, Get(s, x))
    decreases |log|
  {
    if log != [] {
      var n := |log| - 1;
      var r, front := log[n], RedoPlan(log[..n], winners);
      RedoPlanAt(s, log[..n], winners, x);
      if r.IsWrite() && r.txn in winners {
        ApplyBoth(s, front, [Change(r.loc, r.After())]);
        ApplyOne(Apply(s, front), Change(r.loc, r.After()));
        PutGet(Apply(s, front), r.loc, r.After());
      } else {
        assert front + [] == front;
      }
    }
  }

  lemma {:induction false} UndoPlanAt(s: Store, log: seq<LogRecord>, losers: set<int>, x: Loc)
    ensures Get(Apply(s, UndoPlan(log, losers)), x) == UndoAt(log, losers, x, Get(s, x))
    decreases |log|
  {
    if log != [] {
      var n := |log| - 1;
      var r, rest := log[n], UndoPlan(log[..n], losers);
      if r.IsWrite() && r.txn in losers {
        var s' := Put(s, r.loc, r.Before());
        ApplyBoth(s, [Change(r.loc, r.Before())], rest);
        ApplyOne(s, Change(r.loc, r.Before()));
        PutGet(s, r.loc, r.Before());
        UndoPlanAt(s', log[..n], losers, x);
      } else {
        assert [] + rest == rest;
        UndoPlanAt(s, log[..n], losers, x);
      }
    }
  }

  lemma PlanAt(s: Store, log: seq<LogRecord>, x: Loc)
    ensures Get(Apply(s, Plan(log)), x) == RecoverAt(log, x, Get(s, x))
  {
    var redo := RedoPlan(log, CommittedIn(log));
    ApplyBoth(s, redo, UndoPlan(log, LosersIn(log)));
    RedoPlanAt(s, log, CommittedIn(log), x);
    UndoPlanAt(Apply(s, redo), log, LosersIn(log), x);
  }

  // ---------- recovery may itself be cut short ----------

  ghost predicate Covers(plan: seq<Change>, x: Loc)
  {
    exists i :: 0 <= i < |plan| && plan[i].loc == x
  }

  lemma {:induction false} Uncovered(s: Store, plan: seq<Change>, x: Loc)
    requires !Covers(plan, x)
    ensures Get(Apply(s, plan), x) == Get(s, x)
    decreases |plan|
  {
    if plan != [] {
      var n := |plan| - 1;
      forall i | 0 <= i < n ensures plan[..n][i].loc != x {
        assert plan[..n][i] == plan[i];
      }
      Uncovered(s, plan[..n], x);
      assert plan[n].loc != x;
    }
  }

  lemma {:induction false} Covered(s: Store, s': Store, plan: seq<Change>, x: Loc)
    requires Covers(plan, x)
    ensures Get(Apply(s, plan), x) == Get(Apply(s', plan), x)
    decreases |plan|
  {
    var n := |plan| - 1;
    if plan[n].loc != x {
      var i :| 0 <= i < |plan| && plan[i].loc == x;
      assert plan[..n][i].loc == x;
      Covered(s, s', plan[..n], x);
    }
  }

  lemma RestartAfterPrefix(s: Store, plan: seq<Change>, k: nat)
    requires k <= |plan|
    ensures Apply(Apply(s, plan[..k]), plan) == Apply(s, plan)
  {
    var half := Apply(s, plan[..k]);
    forall x ensures Get(Apply(half, plan), x) == Get(Apply(s, plan), x) {
      if Covers(plan, x) {
        Covered(half, s, plan, x);
      } else {
        forall i | 0 <= i < k ensures plan[..k][i].loc != x {
          assert plan[..k][i] == plan[i];
        }
        Uncovered(s, plan[..k], x);
        Uncovered(s, plan, x);
        Uncovered(half, plan, x);
      }
    }
    SameStore(Apply(half, plan), Apply(s, plan));
  }

  predicate StopsWithin(stops: seq<nat>, plan: seq<Change>)
  {
    forall i :: 0 <= i < |stops| ==> stops[i] <= |plan|
  }

  /** Recovery stopped after each of the given numbers of writes, then let run to the end. */
  function Interrupted(s: Store, plan: seq<Change>, stops: seq<nat>): Store
    requires StopsWithin(stops, plan)
    decreases |stops|
  {
    if stops == [] then Apply(s, plan) else Interrupted(Apply(s, plan[..stops[0]]), plan, stops[1..])
  }

  /** However often recovery is stopped and started again, it ends where one run of it would. */
  lemma {:induction false} RestartsDoNotMatter(s: Store, log: seq<LogRecord>, stops: seq<nat>)
    requires StopsWithin(stops, Plan(log))
    ensures Interrupted(s, Plan(log), stops) == Apply(s, Plan(log))
    decreases |stops|
  {
    if stops != [] {
      RestartsDoNotMatter(Apply(s, Plan(log)[..stops[0]]), log, stops[1..]);
      RestartAfterPrefix(s, Plan(log), stops[0]);
    }
  }

  // ---------- the two passes as they run ----------

  class RecoveryManager {
    /** The rows in the table heaps. */
    var records: Store

    constructor (image: Store)
      ensures records == image
    {
      records := image;
    }

    method PutRecordAt(x: Loc, rec: Rec)
      modifies this
      ensures records == Put(old(records), x, Present(rec))
    {
      records := records[x := rec];
    }

    method DeleteIfPresent(x: Loc)
      modifies this
      ensures records == Put(old(records), x, Absent)
    {
      if x in records {
        records := records - {x};
      }
    }

    method Redo(log: seq<LogRecord>)
      modifies this
      ensures records == Apply(old(records), RedoPlan(log, CommittedIn(log)))
    {
      var committed := FindCommitted(log);
      assert log[..|log|] == log;
      for i := 0 to |log|
        invariant records == Apply(old(records), RedoPlan(log[..i], committed))
      {
        RedoPlanSnoc(old(records), log[..i], log[i], committed);
        assert log[..i + 1] == log[..i] + [log[i]];
        RedoRecord(log[i], committed);
      }
    }

    method RedoRecord(r: LogRecord, committed: set<int>)
      modifies this
      ensures records == if r.IsWrite() && r.txn in committed then Put(old(records), r.loc, r.After()) else old(records)
    {
      if r.txn !in committed {
        return;
      }
      if r.LogInsert? {
        PutRecordAt(r.loc, r.value);
      } else if r.LogDelete? {
        DeleteIfPresent(r.loc);
      } else if r.LogUpdate? {
        PutRecordAt(r.loc, r.newValue);
      }
    }

    method Undo(log: seq<LogRecord>)
      modifies this
      ensures records == Apply(old(records), UndoPlan(log, LosersIn(log)))
    {
      var all, finished := FindTxns(log);
      ghost var losers := LosersIn(log);
      assert log[..|log|] == log;
      var i := |log|;
      while i > 0
        invariant 0 <= i <= |log|
        invariant Apply(records, UndoPlan(log[..i], losers)) == Apply(old(records), UndoPlan(log, losers))
      {
        i := i - 1;
        UndoPlanSnoc(records, log[..i], log[i], losers);
        assert log[..i + 1] == log[..i] + [log[i]];
        if log[i].txn !in all || log[i].txn in finished {
          continue;
        }
        if log[i].LogInsert? {
          DeleteIfPresent(log[i].loc);
        } else if log[i].LogDelete? {
          PutRecordAt(log[i].loc, log[i].value);
        } else if log[i].LogUpdate? {
          PutRecordAt(log[i].loc, log[i].oldValue);
        }
      }
    }
  }

  method FindCommitted(log: seq<LogRecord>) returns (committed: set<int>)
    ensures committed == CommittedIn(log)
  {
    committed := {};
    for i := 0 to |log|
      invariant committed == CommittedIn(log[..i])
    {
      assert log[..i + 1] == log[..i] + [log[i]];
      SetsSnoc(log[..i], log[i]);
      if log[i].LogCommit? {
        committed := committed + {log[i].txn};
      }
    }
    assert log[..|log|] == log;
  }

  method FindTxns(log: seq<LogRecord>) returns (all: set<int>, finished: set<int>)
    ensures all == AllIn(log) && finished == FinishedIn(log)
  {
    all, finished := {}, {};
    for i := 0 to |log|
      invariant all == AllIn(log[..i]) && finished == FinishedIn(log[..i])
    {
      assert log[..i + 1] == log[..i] + [log[i]];
      SetsSnoc(log[..i], log[i]);
      if log[i].txn != INVALID_TXN_ID {
        all := all + {log[i].txn};
      }
      if log[i].LogCommit? || log[i].LogAbort? {
        finished := finished + {log[i].txn};
      }
    }
    assert log[..|log|] == log;
  }

  lemma RedoPlanSnoc(s: Store, log: seq<LogRecord>, r: LogRecord, winners: set<int>)
    ensures Apply(s, RedoPlan(log + [r], winners)) ==
      if r.IsWrite() && r.txn in winners then Put(Apply(s, RedoPlan(log, winners)), r.loc, r.After())
      else Apply(s, RedoPlan(log, winners))
  {
    assert (log + [r])[..|log + [r]| - 1] == log;
    var front := RedoPlan(log, winners);
    assert front + [] == front;
    if r.IsWrite() {
      ApplyBoth(s, front, [Change(r.loc, r.After())]);
      ApplyOne(Apply(s, front), Change(r.loc, r.After()));
    }
  }

  lemma UndoPlanSnoc(s: Store, log: seq<LogRecord>, r: LogRecord, losers: set<int>)
    ensures Apply(s, UndoPlan(log + [r], losers)) ==
      if r.IsWrite() && r.txn in losers then Apply(Put(s, r.loc, r.Before()), UndoPlan(log, losers))
      else Apply(s, UndoPlan(log, losers))
  {
    assert (log + [r])[..|log + [r]| - 1] == log;
    var rest := UndoPlan(log, losers);
    assert [] + rest == rest;
    if r.IsWrite() {
      ApplyBoth(s, [Change(r.loc, r.Before())], rest);
      ApplyOne(s, Change(r.loc, r.Before()));
    }
  }

  // ---------- the theorems ----------

  lemma InitialLogInv(s0: Store)
    ensures LogInv(s0, s0, Initial(s0))
  {}

  /** The image still has the initial value wherever no committed and no running transaction wrote. */
  ghost predicate KeepsUnlogged(s0: Store, log: seq<LogRecord>, image: Store)
  {
    forall x :: Unlogged(log, x) ==> Get(image, x) == Get(s0, x)
  }

  /** Every place recovery knows gets its committed row; every other place keeps what the image has. */
  lemma RecoveredAt(s0: Store, steps: seq<Step>, last: State, image: Store, x: Loc)
    requires Run(Initial(s0), steps, last)
    ensures var c, after := SerialRun(s0, last.committed), Apply(image, Plan(last.log));
      if Unlogged(last.log, x) then Get(after, x) == Get(image, x) && Get(c, x) == Get(s0, x)
      else Get(after, x) == Get(c, x)
  {
    InitialInv(s0);
    InitialLogInv(s0);
    RunKeepsLogInv(s0, Initial(s0), steps, last);
    PlanAt(image, last.log, x);
    RecoverPlace(s0, SerialRun(s0, last.committed), last, x, Get(image, x));
  }

  /** Recovery of a crash image gives exactly the committed store if and only if the image still has the
      initial value wherever no committed and no running transaction wrote. */
  lemma RecoveryIsExact(s0: Store, steps: seq<Step>, last: State, image: Store)
    requires Run(Initial(s0), steps, last)
    ensures Apply(image, Plan(last.log)) == SerialRun(s0, last.committed) <==> KeepsUnlogged(s0, last.log, image)
  {
    var c, after := SerialRun(s0, last.committed), Apply(image, Plan(last.log));
    forall x
      ensures !Unlogged(last.log, x) ==> Get(after, x) == Get(c, x)
      ensures Unlogged(last.log, x) ==> Get(after, x) == Get(image, x) && Get(c, x) == Get(s0, x)
    {
      RecoveredAt(s0, steps, last, image, x);
    }
    if KeepsUnlogged(s0, last.log, image) {
      SameStore(after, c);
    }
  }

  /** Each place of the image holds its initial value or one written there by a transaction that committed
      or was still running. */
  ghost predicate CrashImage(s0: Store, log: seq<LogRecord>, image: Store)
  {
    forall x :: Get(image, x) != Get(s0, x) ==>
      exists i :: 0 <= i < |log| && Hits(log[i], CommittedIn(log) + LosersIn(log), x) && Get(image, x) == log[i].After()
  }

  lemma CrashImageKeeps(s0: Store, log: seq<LogRecord>, image: Store)
    requires CrashImage(s0, log, image)
    ensures KeepsUnlogged(s0, log, image)
  {
    forall x | Unlogged(log, x) ensures Get(image, x) == Get(s0, x) {
      forall i | 0 <= i < |log| ensures !Hits(log[i], CommittedIn(log) + LosersIn(log), x) {
        assert !Hits(log[i], CommittedIn(log), x) && !Hits(log[i], LosersIn(log), x);
      }
    }
  }

  /** From every such image, however often recovery is interrupted, exactly the committed work is left. */
  lemma RecoveryYieldsCommitted(s0: Store, steps: seq<Step>, last: State, image: Store, stops: seq<nat>)
    requires Run(Initial(s0), steps, last) && CrashImage(s0, last.log, image)
    requires StopsWithin(stops, Plan(last.log))
    ensures Interrupted(image, Plan(last.log), stops) == SerialRun(s0, last.committed)
  {
    CrashImageKeeps(s0, last.log, image);
    RecoveryIsExact(s0, steps, last, image);
    RestartsDoNotMatter(image, last.log, stops);
  }

  /** The hypothesis is needed: a row inserted by an aborted transaction that reached the disk stays there,
      since neither pass looks at aborted transactions. */
  lemma AbortedRowSurvives(x: Loc, rec: Rec)
    ensures var s1 := Next(Initial(map[]), Begin(0));
      && Enabled(s1, Lock(0, x.table, true))
      && var s2 := Next(s1, Lock(0, x.table, true));
      && Enabled(s2, Insert(0, x, rec))
      && var s3 := Next(s2, Insert(0, x, rec));
      && Enabled(s3, Abort(0))
      && var s4 := Next(s3, Abort(0));
      && s4.store == map[] == SerialRun(map[], s4.committed)
      && Apply(s3.store, Plan(s4.log)) == map[x := rec]
  {
    var s1 := Next(Initial(map[]), Begin(0));
    var s2 := Next(s1, Lock(0, x.table, true));
    assert s2.locks.held == map[L.Hold(L.TableItem(x.table), 0) := L.Exclusive];
    var s3 := Next(s2, Insert(0, x, rec));
    assert s3.txns[0].writes == [InsertTuple(x)];
    var s4 := Next(s3, Abort(0));
    RollBackSnoc(s3.store, [], InsertTuple(x));
    assert s3.store == map[x := rec] && s4.store == map[];
    assert s4.log == [LogBegin(0), LogInsert(0, x, rec), LogAbort(0)];
    assert s4.log[2].LogAbort? && 0 in FinishedIn(s4.log);
    assert LosersIn(s4.log) == {} && CommittedIn(s4.log) == {};
    forall y ensures Get(Apply(s3.store, Plan(s4.log)), y) == Get(s3.store, y) {
      PlanAt(s3.store, s4.log, y);
      RedoUntouched(s4.log, {}, y, Get(s3.store, y));
      UndoUntouched(s4.log, {}, y, Get(s3.store, y));
    }
    SameStore(Apply(s3.store, Plan(s4.log)), s3.store);
  }
}
