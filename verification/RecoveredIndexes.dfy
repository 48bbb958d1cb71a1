/** Unique keys survive concurrency, rollback and a crash, so the indexes rebuilt after recovery are right. */
module RecoveredIndexes {
  import opened Records
  import opened Schedules
  import opened LogRecords
  import opened TwoPhase
  import opened Serializability
  import opened RecoveryModel
  import opened Recovery
  import opened Tables
  import opened IndexBuild
  import L = LockModel
  import F = LogFormat
  import T = TornLog

  /** An index as the catalogue declares it. */
  datatype Meta = Meta(table: int, cols: seq<Col>)

  ghost predicate KeyRule(schema: seq<Meta>, s: Store)
  {
    forall i :: 0 <= i < |schema| ==> Unique(schema[i].table, schema[i].cols, s)
  }

  // ---------- runs whose inserts and updates pass the check ----------

  ghost predicate KeyRun(schema: seq<Meta>, st: State, steps: seq<Step>, last: State)
    decreases |steps|
  {
    if steps == [] then last == st
    else
      && Enabled(st, steps[0])
      && (steps[0].Insert? || steps[0].Update? ==> KeyRule(schema, Next(st, steps[0]).store))
      && KeyRun(schema, Next(st, steps[0]), steps[1..], last)
  }

  lemma {:induction false} KeyRunIsRun(schema: seq<Meta>, st: State, steps: seq<Step>, last: State)
    requires KeyRun(schema, st, steps, last)
    ensures Run(st, steps, last)
    decreases |steps|
  {
    if steps != [] {
      KeyRunIsRun(schema, Next(st, steps[0]), steps[1..], last);
    }
  }

  lemma UniqueAgrees(table: int, cols: seq<Col>, s: Store, s': Store)
    requires Unique(table, cols, s) && AgreeOn(s, s', table)
    ensures Unique(table, cols, s')
  {
    forall x, y | x in s' && y in s' && SameKey(table, cols, s', x, y) ensures x == y {
      assert Get(s, x) == Get(s', x) && Get(s, y) == Get(s', y);
      assert SameKey(table, cols, s, x, y);
    }
  }

  lemma FewerRowsStayUnique(schema: seq<Meta>, s: Store, x: Loc)
    requires KeyRule(schema, s)
    ensures KeyRule(schema, s - {x})
  {
    var s' := s - {x};
    forall i | 0 <= i < |schema| ensures Unique(schema[i].table, schema[i].cols, s') {
      var m := schema[i];
      assert Unique(m.table, m.cols, s);
      forall a, b | a in s' && b in s' && SameKey(m.table, m.cols, s', a, b) ensures a == b {
        assert SameKey(m.table, m.cols, s, a, b);
      }
    }
  }

  lemma CommitKeepsRule(schema: seq<Meta>, c: Store, st: State, t: TxnId)
    requires Views(c, st) && t in st.txns && KeyRule(schema, c) && KeyRule(schema, st.store)
    ensures KeyRule(schema, Replay(c, st.txns[t].trace))
  {
    var c' := Replay(c, st.txns[t].trace);
    forall i | 0 <= i < |schema| ensures Unique(schema[i].table, schema[i].cols, c') {
      var m := schema[i];
      if OwnsX(st, t, m.table) {
        UniqueAgrees(m.table, m.cols, st.store, c');
      } else {
        CommitLeaves(c, st, t, m.table);
        UniqueAgrees(m.table, m.cols, c, c');
      }
    }
  }

  lemma AbortKeepsRule(schema: seq<Meta>, c: Store, st: State, t: TxnId)
    requires Views(c, st) && t in st.txns && KeyRule(schema, c) && KeyRule(schema, st.store)
    ensures KeyRule(schema, RollBack(st.store, st.txns[t].writes))
  {
    var s' := RollBack(st.store, st.txns[t].writes);
    forall i | 0 <= i < |schema| ensures Unique(schema[i].table, schema[i].cols, s') {
      var m := schema[i];
      if OwnsX(st, t, m.table) {
        UniqueAgrees(m.table, m.cols, c, s');
      } else {
        AbortLeaves(st, t, m.table);
        UniqueAgrees(m.table, m.cols, st.store, s');
      }
    }
  }

  lemma {:induction false} RunKeepsRule(schema: seq<Meta>, s0: Store, st: State, steps: seq<Step>, last: State)
    requires KeyRun(schema, st, steps, last) && Inv(s0, st)
    requires KeyRule(schema, st.store) && KeyRule(schema, SerialRun(s0, st.committed))
    ensures KeyRule(schema, last.store) && KeyRule(schema, SerialRun(s0, last.committed))
    decreases |steps|
  {
    if steps != [] {
      var s, c := steps[0], SerialRun(s0, st.committed);
      StepKeepsInv(s0, st, s);
      if s.Commit? {
        CommitKeepsRule(schema, c, st, s.txn);
        SerialSnoc(s0, st.committed, Done(s.txn, st.txns[s.txn].trace));
      } else if s.Abort? {
        AbortKeepsRule(schema, c, st, s.txn);
      } else if s.Delete? {
        FewerRowsStayUnique(schema, st.store, s.loc);
      }
      RunKeepsRule(schema, s0, Next(st, s), steps[1..], last);
    }
  }

  ghost predicate Declares(schema: seq<Meta>, indexes: seq<Index>)
  {
    |schema| == |indexes| && forall i :: 0 <= i < |schema| ==> schema[i] == Meta(indexes[i].table, indexes[i].cols)
  }

  lemma RuleIsUnique(schema: seq<Meta>, indexes: seq<Index>, s: Store)
    requires Declares(schema, indexes)
    ensures KeyRule(schema, s) <==> AllUnique(indexes, s)
  {}

  lemma CommittedRowsAreUnique(schema: seq<Meta>, s0: Store, steps: seq<Step>, last: State)
    requires KeyRun(schema, Initial(s0), steps, last) && KeyRule(schema, s0)
    ensures Run(Initial(s0), steps, last) && KeyRule(schema, SerialRun(s0, last.committed))
  {
    KeyRunIsRun(schema, Initial(s0), steps, last);
    InitialInv(s0);
    RunKeepsRule(schema, s0, Initial(s0), steps, last);
  }

  // ---------- when the rebuild at start-up completes ----------

  /** A place recovery does not look at, where the image differs from the initial store. */
  ghost predicate Survivor(s0: Store, log: seq<LogRecord>, image: Store, x: Loc)
  {
    Unlogged(log, x) && Get(image, x) != Get(s0, x)
  }

  /** No surviving row shares a key with another recovered row. */
  ghost predicate SurvivorsDoNotClash(schema: seq<Meta>, s0: Store, log: seq<LogRecord>, image: Store, rows: Store)
  {
    forall i, x, y ::
      (&& 0 <= i < |schema| && x in rows && y in rows && Survivor(s0, log, image, x)
       && SameKey(schema[i].table, schema[i].cols, rows, x, y)) ==> x == y
  }

  lemma OnlySurvivorsClash(schema: seq<Meta>, s0: Store, steps: seq<Step>, last: State, image: Store)
    requires KeyRun(schema, Initial(s0), steps, last) && KeyRule(schema, s0)
    ensures var rows := Apply(image, Plan(last.log));
      KeyRule(schema, rows) <==> SurvivorsDoNotClash(schema, s0, last.log, image, rows)
  {
    var c, rows := SerialRun(s0, last.committed), Apply(image, Plan(last.log));
    CommittedRowsAreUnique(schema, s0, steps, last);
    if SurvivorsDoNotClash(schema, s0, last.log, image, rows) {
      forall i | 0 <= i < |schema| ensures Unique(schema[i].table, schema[i].cols, rows) {
        assert Unique(schema[i].table, schema[i].cols, c);
        forall x, y | x in rows && y in rows && SameKey(schema[i].table, schema[i].cols, rows, x, y) ensures x == y {
          RecoveredAt(s0, steps, last, image, x);
          RecoveredAt(s0, steps, last, image, y);
          assert SameKey(schema[i].table, schema[i].cols, rows, y, x);
          assert !Survivor(s0, last.log, image, x) && !Survivor(s0, last.log, image, y) ==>
            Get(rows, x) == Get(c, x) && Get(rows, y) == Get(c, y);
        }
      }
    }
  }

  /** Redo, undo and rebuilding the indexes, from any image and whatever the index files held: the rebuild comes to
      its end exactly if no surviving row shares a key with another row, and then every index is right. */
  lemma RebuildAfterRecovery(schema: seq<Meta>, s0: Store, steps: seq<Step>, last: State, image: Store,
                             stale: seq<Index>, scans: map<int, seq<Loc>>)
    requires KeyRun(schema, Initial(s0), steps, last) && KeyRule(schema, s0) && Declares(schema, stale)
    requires var rows := Apply(image, Plan(last.log));
      ScansOf(scans, Database(rows, stale)) && ScansMeetRows(scans, rows)
    ensures var rows := Apply(image, Plan(last.log));
      var r := RebuildAll(stale, rows, scans);
      && (r.complete <==> SurvivorsDoNotClash(schema, s0, last.log, image, rows))
      && (r.complete ==> SameSchema(r.indexes, stale) && Consistent(Database(rows, r.indexes)))
      && (KeepsUnlogged(s0, last.log, image) ==> r.complete && rows == SerialRun(s0, last.committed))
  {
    var rows := Apply(image, Plan(last.log));
    OnlySurvivorsClash(schema, s0, steps, last, image);
    RuleIsUnique(schema, stale, rows);
    RebuildCompletesIfUnique(stale, rows, scans);
    KeyRunIsRun(schema, Initial(s0), steps, last);
    RecoveryIsExact(s0, steps, last, image);
  }

  // ---------- the crash, the torn log, the restarts and the rebuild together ----------

  lemma {:induction false} KeyRunPrefix(schema: seq<Meta>, st: State, steps: seq<Step>, last: State, m: nat, mid: State)
    requires KeyRun(schema, st, steps, last) && m <= |steps| && Run(st, steps[..m], mid)
    ensures KeyRun(schema, st, steps[..m], mid)
    decreases m
  {
    if m > 0 {
      assert steps[..m][1..] == steps[1..][..m - 1];
      KeyRunPrefix(schema, Next(st, steps[0]), steps[1..], last, m - 1, mid);
    }
  }

  /** The log file is cut at any byte, recovery is stopped and started again any number of times, and the indexes are
      rebuilt from whatever their files held: the rows are those committed by some moment of the run exactly if the
      image held no others, and then every index agrees with them. */
  lemma CrashRecovery(schema: seq<Meta>, s0: Store, steps: seq<Step>, last: State, rs: seq<F.WalRecord>,
                      cs: seq<seq<int>>, onDisk: nat, k: nat, tableOf: seq<int> -> int, image: Store,
                      stops: seq<nat>, rows: Store, stale: seq<Index>, scans: map<int, seq<Loc>>) returns (mid: State)
    requires KeyRun(schema, Initial(s0), steps, last) && KeyRule(schema, s0) && Declares(schema, stale)
    requires T.LogFile(last.log, rs, cs, onDisk, k, tableOf)
    requires StopsWithin(stops, Plan(T.ReadLog(cs, onDisk, k, tableOf)))
    requires rows == Interrupted(image, Plan(T.ReadLog(cs, onDisk, k, tableOf)), stops)
    requires ScansOf(scans, Database(rows, stale)) && ScansMeetRows(scans, rows)
    ensures mid.log == T.ReadLog(cs, onDisk, k, tableOf) && mid.committed <= last.committed
    ensures rows == SerialRun(s0, mid.committed) <==> KeepsUnlogged(s0, mid.log, image)
    ensures var r := RebuildAll(stale, rows, scans);
      && (r.complete <==> SurvivorsDoNotClash(schema, s0, mid.log, image, rows))
      && (r.complete ==> SameSchema(r.indexes, stale) && Consistent(Database(rows, r.indexes)))
      && (KeepsUnlogged(s0, mid.log, image) ==> r.complete)
  {
    var m;
    KeyRunIsRun(schema, Initial(s0), steps, last);
    m, mid := T.CrashAnywhere(s0, steps, last, rs, cs, onDisk, k, tableOf, image, stops);
    KeyRunPrefix(schema, Initial(s0), steps, last, m, mid);
    RebuildAfterRecovery(schema, s0, steps[..m], mid, image, stale, scans);
  }

  // ---------- a run after which it does not ----------

  lemma KeyRunCons(schema: seq<Meta>, st: State, s: Step, rest: seq<Step>, last: State)
    requires Enabled(st, s) && (s.Insert? || s.Update? ==> KeyRule(schema, Next(st, s).store))
    requires KeyRun(schema, Next(st, s), rest, last)
    ensures KeyRun(schema, st, [s] + rest, last)
  {
    assert ([s] + rest)[1..] == rest;
  }

  lemma {:induction false} KeyRunJoin(schema: seq<Meta>, st: State, a: seq<Step>, mid: State, b: seq<Step>, last: State)
    requires KeyRun(schema, st, a, mid) && KeyRun(schema, mid, b, last)
    ensures KeyRun(schema, st, a + b, last)
    decreases |a|
  {
    if a == [] {
      assert a + b == b;
    } else {
      assert (a + b)[1..] == a[1..] + b;
      KeyRunJoin(schema, Next(st, a[0]), a[1..], mid, b, last);
    }
  }

  ghost predicate Idle(st: State, t: TxnId)
  {
    st.locks.held == map[] && st.txns == map[] && st.store == map[] && t >= 0 && t !in st.locks.states
  }

  /** A transaction alone in an empty database inserts two rows and rolls back. */
  function LostSteps(t: TxnId, a: Loc, ra: Rec, x: Loc, rec: Rec): seq<Step>
  {
    [Begin(t)] + ([Lock(t, a.table, true)] + ([Insert(t, a, ra)] + ([Insert(t, x, rec)] + ([Abort(t)] + []))))
  }

  /** Another inserts one and commits. */
  function KeptSteps(t: TxnId, a: Loc, rec: Rec): seq<Step>
  {
    [Begin(t)] + ([Lock(t, a.table, true)] + ([Insert(t, a, rec)] + ([Commit(t)] + [])))
  }

  lemma Begun(st: State, t: TxnId, table: int) returns (mid: State, last: State)
    requires Idle(st, t)
    ensures Enabled(st, Begin(t)) && mid == Next(st, Begin(t))
    ensures Enabled(mid, Lock(t, table, true)) && last == Next(mid, Lock(t, table, true))
    ensures last.locks.held == map[L.Hold(L.TableItem(table), t) := L.Exclusive]
    ensures last.txns == map[t := Txn([], [])] && last.store == map[] && L.Live(last.locks, t)
    ensures last.log == st.log + [LogBegin(t)] && last.locks.states.Keys == st.locks.states.Keys + {t}
  {
    mid := Next(st, Begin(t));
    last := Next(mid, Lock(t, table, true));
  }

  lemma LostStates(schema: seq<Meta>, st: State, t: TxnId, a: Loc, ra: Rec, x: Loc, rec: Rec)
    returns (s1: State, s2: State, s3: State, s4: State, last: State)
    requires Idle(st, t) && a != x && a.table == x.table && KeyRule(schema, map[a := ra, x := rec])
    ensures Enabled(st, Begin(t)) && s1 == Next(st, Begin(t))
    ensures Enabled(s1, Lock(t, a.table, true)) && s2 == Next(s1, Lock(t, a.table, true))
    ensures Enabled(s2, Insert(t, a, ra)) && s3 == Next(s2, Insert(t, a, ra)) && KeyRule(schema, s3.store)
    ensures Enabled(s3, Insert(t, x, rec)) && s4 == Next(s3, Insert(t, x, rec)) && KeyRule(schema, s4.store)
    ensures Enabled(s4, Abort(t)) && last == Next(s4, Abort(t))
    ensures last.log == st.log + [LogBegin(t), LogInsert(t, a, ra), LogInsert(t, x, rec), LogAbort(t)]
    ensures t + 1 !in st.locks.states ==> Idle(last, t + 1)
  {
    s1, s2 := Begun(st, t, a.table);
    s3 := Next(s2, Insert(t, a, ra));
    FewerRowsStayUnique(schema, map[a := ra, x := rec], x);
    assert map[a := ra, x := rec] - {x} == map[a := ra] == s3.store;
    s4 := Next(s3, Insert(t, x, rec));
    assert s4.store == map[a := ra, x := rec];
    last := Next(s4, Abort(t));
    BothTakenBack(s4.store, s4.txns[t].writes, a, ra, x, rec);
    assert last.locks.held == map[] && last.txns == map[];
  }

  lemma LostRun(schema: seq<Meta>, st: State, t: TxnId, a: Loc, ra: Rec, x: Loc, rec: Rec) returns (last: State)
    requires Idle(st, t) && a != x && a.table == x.table && KeyRule(schema, map[a := ra, x := rec])
    ensures KeyRun(schema, st, LostSteps(t, a, ra, x, rec), last)
    ensures last.log == st.log + [LogBegin(t), LogInsert(t, a, ra), LogInsert(t, x, rec), LogAbort(t)]
    ensures t + 1 !in st.locks.states ==> Idle(last, t + 1)
  {
    var s1, s2, s3, s4;
    s1, s2, s3, s4, last := LostStates(schema, st, t, a, ra, x, rec);
    KeyRunCons(schema, s4, Abort(t), [], last);
    KeyRunCons(schema, s3, Insert(t, x, rec), [Abort(t)] + [], last);
    var rest := [Insert(t, x, rec)] + ([Abort(t)] + []);
    KeyRunCons(schema, s2, Insert(t, a, ra), rest, last);
    KeyRunCons(schema, s1, Lock(t, a.table, true), [Insert(t, a, ra)] + rest, last);
    KeyRunCons(schema, st, Begin(t), [Lock(t, a.table, true)] + ([Insert(t, a, ra)] + rest), last);
  }

  lemma BothTakenBack(s: Store, ws: seq<WriteRecord>, a: Loc, ra: Rec, x: Loc, rec: Rec)
    requires a != x && s == map[a := ra, x := rec] && ws == [InsertTuple(a), InsertTuple(x)]
    ensures RollBack(s, ws) == map[]
  {
    assert ws == ([] + [InsertTuple(a)]) + [InsertTuple(x)];
    RollBackSnoc(s, [] + [InsertTuple(a)], InsertTuple(x));
    assert UndoOne(s, InsertTuple(x)) == map[a := ra];
    RollBackSnoc(map[a := ra], [], InsertTuple(a));
  }

  lemma KeptRun(schema: seq<Meta>, st: State, t: TxnId, a: Loc, rec: Rec) returns (last: State)
    requires Idle(st, t)
    ensures KeyRun(schema, st, KeptSteps(t, a, rec), last)
    ensures last.log == st.log + [LogBegin(t), LogInsert(t, a, rec), LogCommit(t)]
    ensures last.txns == map[] && last.store == map[a := rec]
  {
    var s1, s2 := Begun(st, t, a.table);
    var s3 := Next(s2, Insert(t, a, rec));
    assert s3.store == map[a := rec];
    last := Next(s3, Commit(t));
    assert last.txns == map[];
    KeyRunCons(schema, s3, Commit(t), [], last);
    KeyRunCons(schema, s2, Insert(t, a, rec), [Commit(t)] + [], last);
    KeyRunCons(schema, s1, Lock(t, a.table, true), [Insert(t, a, rec)] + ([Commit(t)] + []), last);
    KeyRunCons(schema, st, Begin(t), [Lock(t, a.table, true)] + ([Insert(t, a, rec)] + ([Commit(t)] + [])), last);
  }

  /** The rows after the log of the two, from an image taken before the rollback. */
  lemma BothRowsRecovered(steps: seq<Step>, last: State, a: Loc, ra: Rec, x: Loc, rec: Rec)
    requires Run(Initial(map[]), steps, last) && last.txns == map[] && last.store == map[a := rec] && a != x
    requires last.log ==
      [LogBegin(0), LogInsert(0, a, ra), LogInsert(0, x, rec), LogAbort(0)]
      + [LogBegin(1), LogInsert(1, a, rec), LogCommit(1)]
    ensures var rows := Apply(map[a := ra, x := rec], Plan(last.log));
      a in rows && x in rows && rows[a] == rec && rows[x] == rec
  {
    var log, image := last.log, map[a := ra, x := rec];
    assert log[3].LogAbort? && log[6].LogCommit?;
    assert 0 in FinishedIn(log) && 1 in FinishedIn(log) && 1 in CommittedIn(log);
    assert LosersIn(log) == {} && CommittedIn(log) == {1};
    assert Unlogged(log, x);
    assert Hits(log[5], {1}, a);
    RecoveredAt(map[], steps, last, image, x);
    RecoveredAt(map[], steps, last, image, a);
    QuiescentStoreIsSerial(map[], steps, last);
  }

  /** Two rows reach the disk and are rolled back; the heap gives the first of the two places, which is free again, to
      a row with the key of the second, and that is committed.  After a crash the second row is there as well, and the
      rebuild of the index stops. */
  lemma SurvivorStopsRebuild(a: Loc, ra: Rec, x: Loc, rec: Rec, stale: Index, scans: map<int, seq<Loc>>)
    returns (last: State)
    requires a != x && a.table == x.table == stale.table && stale.KeyOf(ra) != stale.KeyOf(rec)
    ensures var schema := [Meta(stale.table, stale.cols)];
      && KeyRun(schema, Initial(map[]), LostSteps(0, a, ra, x, rec) + KeptSteps(1, a, rec), last)
      && var rows := Apply(map[a := ra, x := rec], Plan(last.log));
      && (ScansOf(scans, Database(rows, [stale])) && ScansMeetRows(scans, rows) ==>
        !RebuildAll([stale], rows, scans).complete)
  {
    var schema := [Meta(stale.table, stale.cols)];
    var lost, kept := LostSteps(0, a, ra, x, rec), KeptSteps(1, a, rec);
    assert Unique(stale.table, stale.cols, map[a := ra, x := rec]);
    var mid := LostRun(schema, Initial(map[]), 0, a, ra, x, rec);
    last := KeptRun(schema, mid, 1, a, rec);
    KeyRunJoin(schema, Initial(map[]), lost, mid, kept, last);
    KeyRunIsRun(schema, Initial(map[]), lost + kept, last);
    BothRowsRecovered(lost + kept, last, a, ra, x, rec);
    var rows := Apply(map[a := ra, x := rec], Plan(last.log));
    if ScansOf(scans, Database(rows, [stale])) && ScansMeetRows(scans, rows) {
      RebuildCompletesIfUnique([stale], rows, scans);
      assert SameKey(stale.table, stale.cols, rows, x, a);
      assert [stale][0] == stale && !Unique(stale.table, stale.cols, rows);
    }
  }
}
