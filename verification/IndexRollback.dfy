/** Rolling back a transaction during which indexes were created. */
module IndexRollback {
  import opened Records
  import opened Schedules
  import opened Tables
  import opened IndexBuild

  // ---------- one write taken back, one index ----------

  /** A deleted row goes back to a place that is empty. */
  predicate Fits(rows: Store, w: WriteRecord)
  {
    w.DeleteTuple? ==> w.loc !in rows
  }

  lemma FewerRowsUnique(table: int, cols: seq<Col>, rows: Store, x: Loc)
    requires Unique(table, cols, rows)
    ensures Unique(table, cols, rows - {x})
  {
    var s := rows - {x};
    forall a, b | a in s && b in s && SameKey(table, cols, s, a, b) ensures a == b {
      assert SameKey(table, cols, rows, a, b);
    }
  }

  /** A right index accepts the entry exactly if the rows have unique keys once the write is taken back. */
  lemma EntryAcceptedIfUnique(ix: Index, rows: Store, w: WriteRecord)
    requires IndexOk(ix, rows) && Fits(rows, w)
    ensures EntryAccepted(ix, rows, w) <==> Unique(ix.table, ix.cols, UndoOne(rows, w))
  {
    IndexOkIsUnique(ix, rows);
    match w
    case InsertTuple(x) => FewerRowsUnique(ix.table, ix.cols, rows, x);
    case DeleteTuple(x, rec) => InsertCheckIsExact(ix, rows, x, rec);
    case UpdateTuple(x, rec) =>
      if x in rows {
        UpdateCheckIsExact(ix, rows, x, rec);
        AcceptedIsNoClash(ix, rows, x, rec);
      }
  }

  lemma AcceptedIsNoClash(ix: Index, rows: Store, x: Loc, rec: Rec)
    requires IndexOk(ix, rows) && x in rows
    ensures EntryAccepted(ix, rows, UpdateTuple(x, rec)) <==> !UpdateClashes(ix, x, rows[x], rec)
  {
    if !UpdateClashes(ix, x, rows[x], rec) {
      NewKeyIsFree(ix, rows, x, rec);
    }
  }

  // ---------- one write taken back, every index ----------

  lemma UndoAcceptedIfUnique(db: Database, w: WriteRecord)
    requires Consistent(db) && Fits(db.rows, w)
    ensures UndoAccepted(db, w) <==> AllUnique(db.indexes, UndoOne(db.rows, w))
  {
    forall i | 0 <= i < |db.indexes|
      ensures EntryAccepted(db.indexes[i], db.rows, w) <==>
        Unique(db.indexes[i].table, db.indexes[i].cols, UndoOne(db.rows, w))
    {
      EntryAcceptedIfUnique(db.indexes[i], db.rows, w);
    }
  }

  lemma UndoKeepsConsistent(db: Database, w: WriteRecord)
    requires Consistent(db) && Fits(db.rows, w) && UndoAccepted(db, w)
    ensures Consistent(UndoWrite(db, w)) && UndoWrite(db, w).rows == UndoOne(db.rows, w)
    ensures SameSchema(UndoWrite(db, w).indexes, db.indexes)
  {
    match w
    case InsertTuple(x) => if x in db.rows { DeleteKeepsConsistent(db, x); }
    case DeleteTuple(x, rec) =>
      forall i | 0 <= i < |db.indexes| ensures !InsertClashes(db.indexes[i], x, rec) {
        assert EntryAccepted(db.indexes[i], db.rows, w);
      }
      InsertKeepsConsistent(db, x, rec);
    case UpdateTuple(x, rec) =>
      if x in db.rows {
        forall i | 0 <= i < |db.indexes| ensures !UpdateClashes(db.indexes[i], x, db.rows[x], rec) {
          AcceptedIsNoClash(db.indexes[i], db.rows, x, rec);
        }
        UpdateKeepsConsistent(db, x, rec);
      }
  }

  // ---------- a whole write set ----------

  /** Every delete in the write set is taken back at an empty place. */
  ghost predicate AllFit(rows: Store, ws: seq<WriteRecord>)
    decreases |ws|
  {
    ws == [] || (Fits(rows, ws[|ws| - 1]) && AllFit(UndoOne(rows, ws[|ws| - 1]), ws[..|ws| - 1]))
  }

  /** The rows now, and after each write taken back, have unique keys for these indexes. */
  ghost predicate UniqueOnTheWay(indexes: seq<Index>, rows: Store, ws: seq<WriteRecord>)
    decreases |ws|
  {
    && AllUnique(indexes, rows)
    && (ws == [] || UniqueOnTheWay(indexes, UndoOne(rows, ws[|ws| - 1]), ws[..|ws| - 1]))
  }

  lemma {:induction false} SchemaOnTheWay(a: seq<Index>, b: seq<Index>, rows: Store, ws: seq<WriteRecord>)
    requires SameSchema(a, b)
    ensures UniqueOnTheWay(a, rows, ws) <==> UniqueOnTheWay(b, rows, ws)
    decreases |ws|
  {
    assert AllUnique(a, rows) <==> AllUnique(b, rows) by {
      assert forall i :: 0 <= i < |a| ==>
        (Unique(a[i].table, a[i].cols, rows) <==> Unique(b[i].table, b[i].cols, rows));
    }
    if ws != [] {
      SchemaOnTheWay(a, b, UndoOne(rows, ws[|ws| - 1]), ws[..|ws| - 1]);
    }
  }

  /** From right indexes, every entry of the rollback is accepted exactly if the keys are unique all the way back,
      and then the indexes are right at the end. */
  lemma {:induction false} AcceptedIfUniqueOnTheWay(db: Database, ws: seq<WriteRecord>)
    requires Consistent(db) && AllFit(db.rows, ws)
    ensures AllAccepted(db, ws) <==> UniqueOnTheWay(db.indexes, db.rows, ws)
    ensures AllAccepted(db, ws) ==>
      Consistent(UndoAll(db, ws)) && SameSchema(UndoAll(db, ws).indexes, db.indexes)
    decreases |ws|
  {
    ConsistentIsUnique(db);
    if ws != [] {
      var w, rest := ws[|ws| - 1], ws[..|ws| - 1];
      UndoAcceptedIfUnique(db, w);
      if UndoAccepted(db, w) {
        UndoKeepsConsistent(db, w);
        AcceptedIfUniqueOnTheWay(UndoWrite(db, w), rest);
        SchemaOnTheWay(UndoWrite(db, w).indexes, db.indexes, UndoOne(db.rows, w), rest);
      }
    }
  }

  // ---------- a transaction that writes rows while indexes are created ----------

  datatype TxnStep =
    | RowOp(step: RowStep)
    | NewIndex(table: int, cols: seq<Col>, scan: seq<Loc>)

  ghost predicate TxnEnabled(w: Work, s: TxnStep)
  {
    if s.RowOp? then RowEnabled(w, s.step) else ScanOf(s.scan, w.db.rows, s.table)
  }

  /** `create_index` leaves no record in the write set. */
  ghost function TxnNext(w: Work, s: TxnStep): Work
    requires TxnEnabled(w, s)
  {
    match s
    case RowOp(step) => RowNext(w, step)
    case NewIndex(table, cols, scan) => Work(StatementNext(w.db, CreateIndex(table, cols, scan)), w.writes)
  }

  ghost predicate TxnRun(w: Work, steps: seq<TxnStep>, last: Work)
    decreases |steps|
  {
    if steps == [] then last == w else TxnEnabled(w, steps[0]) && TxnRun(TxnNext(w, steps[0]), steps[1..], last)
  }

  /** Every state of the rows during the transaction had unique keys for these indexes. */
  ghost predicate AlwaysUnique(indexes: seq<Index>, w: Work, steps: seq<TxnStep>, last: Work)
    requires TxnRun(w, steps, last)
    decreases |steps|
  {
    && AllUnique(indexes, w.db.rows)
    && (steps == [] || AlwaysUnique(indexes, TxnNext(w, steps[0]), steps[1..], last))
  }

  lemma OnTheWaySnoc(indexes: seq<Index>, rows: Store, ws: seq<WriteRecord>, w: WriteRecord)
    ensures UniqueOnTheWay(indexes, rows, ws + [w]) <==>
      AllUnique(indexes, rows) && UniqueOnTheWay(indexes, UndoOne(rows, w), ws)
    ensures AllFit(rows, ws + [w]) <==> Fits(rows, w) && AllFit(UndoOne(rows, w), ws)
  {
    assert (ws + [w])[..|ws + [w]| - 1] == ws;
  }

  /** The write record of a row statement leads back to the rows before it. */
  lemma StepLeadsBack(indexes: seq<Index>, w: Work, s: RowStep)
    requires RowEnabled(w, s) && AllFit(w.db.rows, w.writes)
    ensures var next := RowNext(w, s);
      && AllFit(next.db.rows, next.writes)
      && (UniqueOnTheWay(indexes, next.db.rows, next.writes) <==>
        AllUnique(indexes, next.db.rows) && UniqueOnTheWay(indexes, w.db.rows, w.writes))
  {
    var next, rows, x := RowNext(w, s), w.db.rows, s.loc;
    match s
    case InsertRow(_, rec) =>
      if CanInsert(w.db, x, rec) {
        assert UndoOne(next.db.rows, InsertTuple(x)) == rows;
        OnTheWaySnoc(indexes, next.db.rows, w.writes, InsertTuple(x));
      }
    case DeleteRow(_) =>
      assert UndoOne(next.db.rows, DeleteTuple(x, rows[x])) == rows;
      OnTheWaySnoc(indexes, next.db.rows, w.writes, DeleteTuple(x, rows[x]));
    case UpdateRow(_, _) =>
      assert UndoOne(next.db.rows, UpdateTuple(x, rows[x])) == rows;
      OnTheWaySnoc(indexes, next.db.rows, w.writes, UpdateTuple(x, rows[x]));
  }

  lemma TxnStepKeeps(w: Work, s: TxnStep)
    requires Consistent(w.db) && TxnEnabled(w, s)
    ensures Consistent(TxnNext(w, s).db)
  {
    match s
    case RowOp(step) => RowStepUndone(w, step);
    case NewIndex(table, cols, scan) => StatementKeepsConsistent(w.db, CreateIndex(table, cols, scan));
  }

  /** The way back passes through exactly the states the transaction went through. */
  lemma {:induction false} WayBackIsHistory(indexes: seq<Index>, w: Work, steps: seq<TxnStep>, last: Work)
    requires TxnRun(w, steps, last) && Consistent(w.db) && AllFit(w.db.rows, w.writes)
    ensures Consistent(last.db) && AllFit(last.db.rows, last.writes)
    ensures UniqueOnTheWay(indexes, last.db.rows, last.writes) <==>
      AlwaysUnique(indexes, w, steps, last) && UniqueOnTheWay(indexes, w.db.rows, w.writes)
    decreases |steps|
  {
    if steps != [] {
      var s, next := steps[0], TxnNext(w, steps[0]);
      TxnStepKeeps(w, s);
      if s.RowOp? {
        StepLeadsBack(indexes, w, s.step);
      }
      WayBackIsHistory(indexes, next, steps[1..], last);
    }
  }

  /** Rolling back a transaction in which, or beside which, indexes were created comes to its end if and only if
      every state of the rows since the transaction began had unique keys for every index that exists now.  Then the
      rows and the old indexes are as they were, and the new indexes agree with the rows. */
  lemma RollbackPastCreateIndex(db: Database, steps: seq<TxnStep>, last: Work)
    requires Consistent(db) && TxnRun(Work(db, []), steps, last)
    ensures var r := Roll(last.db, last.writes);
      && (r.finished <==> AlwaysUnique(last.db.indexes, Work(db, []), steps, last))
      && (r.finished ==>
        && r.db.rows == db.rows && Consistent(r.db) && SameSchema(r.db.indexes, last.db.indexes)
        && |db.indexes| <= |r.db.indexes| && r.db.indexes[..|db.indexes|] == db.indexes)
  {
    var start := Work(db, []);
    WayBackIsHistory(last.db.indexes, start, steps, last);
    AcceptedIfUniqueOnTheWay(last.db, last.writes);
    RollFinishes(last.db, last.writes);
    TxnGrows(start, steps, last);
    UndoAllRows(last.db, last.writes);
    if AllAccepted(last.db, last.writes) {
      OldIndexesRestored(db, UndoAll(last.db, last.writes), last.db.indexes);
    }
  }

  /** Indexes are only added, at the end, and the write set leads back to the first rows. */
  lemma {:induction false} TxnGrows(w: Work, steps: seq<TxnStep>, last: Work)
    requires TxnRun(w, steps, last)
    ensures |w.db.indexes| <= |last.db.indexes|
    ensures forall i :: 0 <= i < |w.db.indexes| ==>
      last.db.indexes[i].table == w.db.indexes[i].table && last.db.indexes[i].cols == w.db.indexes[i].cols
    ensures RollBack(last.db.rows, last.writes) == RollBack(w.db.rows, w.writes)
    decreases |steps|
  {
    if steps != [] {
      var next := TxnNext(w, steps[0]);
      if steps[0].RowOp? {
        RowsLeadBack(w, steps[0].step);
      }
      TxnGrows(next, steps[1..], last);
    }
  }

  lemma RowsLeadBack(w: Work, s: RowStep)
    requires RowEnabled(w, s)
    ensures var next := RowNext(w, s);
      RollBack(next.db.rows, next.writes) == RollBack(w.db.rows, w.writes)
      && SameSchema(next.db.indexes, w.db.indexes)
  {
    var next, rows, x := RowNext(w, s), w.db.rows, s.loc;
    match s
    case InsertRow(_, rec) =>
      if CanInsert(w.db, x, rec) {
        assert UndoOne(next.db.rows, InsertTuple(x)) == rows;
        RollBackSnoc(next.db.rows, w.writes, InsertTuple(x));
      }
    case DeleteRow(_) =>
      assert UndoOne(next.db.rows, DeleteTuple(x, rows[x])) == rows;
      RollBackSnoc(next.db.rows, w.writes, DeleteTuple(x, rows[x]));
    case UpdateRow(_, _) =>
      assert UndoOne(next.db.rows, UpdateTuple(x, rows[x])) == rows;
      RollBackSnoc(next.db.rows, w.writes, UpdateTuple(x, rows[x]));
  }

  lemma OldIndexesRestored(db: Database, back: Database, now: seq<Index>)
    requires Consistent(db) && Consistent(back) && back.rows == db.rows && SameSchema(back.indexes, now)
    requires |db.indexes| <= |now|
    requires forall i :: 0 <= i < |db.indexes| ==>
      now[i].table == db.indexes[i].table && now[i].cols == db.indexes[i].cols
    ensures back.indexes[..|db.indexes|] == db.indexes
  {
    var kept := back.indexes[..|db.indexes|];
    forall i | 0 <= i < |kept| ensures kept[i] == db.indexes[i] {
      IndexDetermined(back.indexes[i], db.indexes[i], db.rows);
    }
    SameIndexes(kept, db.indexes);
  }

  // ---------- a case in which it stops ----------

  /** A row is inserted beside another with the same key, the other is deleted, and an index is created on what is
      left.  Taking the delete back puts the row in its place and is then refused its entry: the rollback ends there,
      with both rows in the table, one of them in the index, and the insert still to be taken back. */
  lemma RollbackStopsPastCreateIndex(x: Loc, y: Loc, rec: Rec, cols: seq<Col>)
    requires x != y && x.table == y.table
    ensures var db := Database(map[x := rec], []);
      var ix := Index(x.table, cols, map[BuildIndexKey(cols, rec) := y.rid]);
      var last := Work(Database(map[y := rec], [ix]), [InsertTuple(y), DeleteTuple(x, rec)]);
      && Consistent(db)
      && TxnRun(Work(db, []), [RowOp(InsertRow(y, rec)), RowOp(DeleteRow(x)), NewIndex(x.table, cols, [y])], last)
      && Roll(last.db, last.writes) == Rolled(Database(map[x := rec, y := rec], [ix]), [InsertTuple(y)], false)
  {
    var db := Database(map[x := rec], []);
    var ix := Index(x.table, cols, map[BuildIndexKey(cols, rec) := y.rid]);
    var w1 := Work(Database(map[x := rec, y := rec], []), [InsertTuple(y)]);
    var w2 := Work(Database(map[y := rec], []), [InsertTuple(y), DeleteTuple(x, rec)]);
    var last := Work(Database(map[y := rec], [ix]), w2.writes);
    assert TxnNext(Work(db, []), RowOp(InsertRow(y, rec))) == w1;
    assert TxnNext(w1, RowOp(DeleteRow(x))) == w2 by {
      assert map[x := rec, y := rec] - {x} == map[y := rec];
    }
    OneRowIndex(y, rec, cols);
    assert TxnNext(w2, NewIndex(x.table, cols, [y])) == last;
    StepsRun(Work(db, []), w1, w2, last, RowOp(InsertRow(y, rec)), RowOp(DeleteRow(x)), NewIndex(x.table, cols, [y]));
    StopsAtOnce(last.db, [InsertTuple(y)], x, rec);
    assert map[y := rec][x := rec] == map[x := rec, y := rec];
  }

  lemma OneRowIndex(y: Loc, rec: Rec, cols: seq<Col>)
    ensures Fill(y.table, cols, map[y := rec], [y]).ix
         == Index(y.table, cols, map[BuildIndexKey(cols, rec) := y.rid])
    ensures Unique(y.table, cols, map[y := rec])
  {
    assert [y][..0] == [];
    assert Fill(y.table, cols, map[y := rec], []) == Filled(Index(y.table, cols, map[]));
  }

  lemma StepsRun(a: Work, b: Work, c: Work, d: Work, s: TxnStep, t: TxnStep, u: TxnStep)
    requires TxnEnabled(a, s) && TxnNext(a, s) == b && TxnEnabled(b, t) && TxnNext(b, t) == c
    requires TxnEnabled(c, u) && TxnNext(c, u) == d
    ensures TxnRun(a, [s, t, u], d)
  {
    assert [s, t, u][1..] == [t, u] && [t, u][1..] == [u] && [u][1..] == [];
    assert TxnRun(d, [], d);
    assert TxnRun(c, [u], d);
    assert TxnRun(b, [t, u], d);
  }

  lemma StopsAtOnce(db: Database, ws: seq<WriteRecord>, x: Loc, rec: Rec)
    requires |db.indexes| == 1 && InsertClashes(db.indexes[0], x, rec)
    ensures Roll(db, ws + [DeleteTuple(x, rec)]) == Rolled(Database(db.rows[x := rec], db.indexes), ws, false)
  {
    var all := ws + [DeleteTuple(x, rec)];
    assert all[..|all| - 1] == ws;
    assert FirstRefusal(db.indexes, db.rows, DeleteTuple(x, rec)) == 0;
    SameIndexes(Stopped(db, DeleteTuple(x, rec)).indexes, db.indexes);
  }
}
