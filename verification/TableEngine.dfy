/** The executors' and the rollback's loops over the indexes of a table. */
module TableEngine {
  import opened Records
  import opened Schedules
  import opened Tables
  import opened IndexBuild
  import K = LockManager

  datatype Result = Ok | KeyTaken | NotFound
  datatype Creation = Created | AlreadyExists | NotUnique

  class Engine {
    var rows: Store
    /** The open indexes. */
    var indexes: seq<Index>

    ghost function Db(): Database
      reads this
    {
      Database(rows, indexes)
    }

    constructor ()
      ensures Db() == Database(map[], []) && Consistent(Db())
    {
      rows, indexes := map[], [];
    }

    /** Enters a row into the indexes of its table, up to the first that refuses it. */
    method AddIndexEntries(x: Loc, rec: Rec) returns (ok: bool)
      modifies this`indexes
      ensures var n := FirstRefusal(old(indexes), rows, DeleteTuple(x, rec));
        && (ok <==> n == |old(indexes)|) && |indexes| == |old(indexes)|
        && (forall i :: 0 <= i < n ==> indexes[i] == WithRow(old(indexes)[i], x, rec))
        && (forall i :: n <= i < |indexes| ==> indexes[i] == old(indexes)[i])
    {
      ghost var w := DeleteTuple(x, rec);
      for n := 0 to |indexes|
        invariant |indexes| == |old(indexes)|
        invariant forall i :: 0 <= i < n ==> EntryAccepted(old(indexes)[i], rows, w)
        invariant forall i :: 0 <= i < n ==> indexes[i] == WithRow(old(indexes)[i], x, rec)
        invariant forall i :: n <= i < |indexes| ==> indexes[i] == old(indexes)[i]
      {
        if indexes[n].table == x.table {
          var key := BuildIndexKey(indexes[n].cols, rec);
          if key in indexes[n].entries {
            FirstRefusalIs(old(indexes), rows, w, n);
            return false;
          }
          indexes := indexes[n := InsertEntry(indexes[n], key, x.rid)];
        }
      }
      FirstRefusalIs(old(indexes), rows, w, |indexes|);
      return true;
    }

    method DropIndexEntries(x: Loc, rec: Rec)
      modifies this`indexes
      ensures |indexes| == |old(indexes)|
      ensures forall i :: 0 <= i < |indexes| ==> indexes[i] == WithoutRow(old(indexes)[i], x, rec)
    {
      for n := 0 to |indexes|
        invariant |indexes| == |old(indexes)|
        invariant forall i :: 0 <= i < n ==> indexes[i] == WithoutRow(old(indexes)[i], x, rec)
        invariant forall i :: n <= i < |indexes| ==> indexes[i] == old(indexes)[i]
      {
        if indexes[n].table == x.table {
          var key := BuildIndexKey(indexes[n].cols, rec);
          indexes := indexes[n := DeleteEntry(indexes[n], key)];
        }
      }
    }

    /** Moves a row to its new keys, up to the first index that refuses one and has lost the old key by then. */
    method MoveIndexEntries(x: Loc, after: Rec) returns (ok: bool)
      requires x in rows
      modifies this`indexes
      ensures var n := FirstRefusal(old(indexes), rows, UpdateTuple(x, after));
        && (ok <==> n == |old(indexes)|) && |indexes| == |old(indexes)|
        && (forall i :: 0 <= i < n ==> indexes[i] == RowMoved(old(indexes)[i], x, rows[x], after))
        && (n < |indexes| ==> indexes[n] == WithoutRow(old(indexes)[n], x, rows[x]))
        && (forall i :: n < i < |indexes| ==> indexes[i] == old(indexes)[i])
    {
      ghost var w := UpdateTuple(x, after);
      for n := 0 to |indexes|
        invariant |indexes| == |old(indexes)|
        invariant forall i :: 0 <= i < n ==> EntryAccepted(old(indexes)[i], rows, w)
        invariant forall i :: 0 <= i < n ==> indexes[i] == RowMoved(old(indexes)[i], x, rows[x], after)
        invariant forall i :: n <= i < |indexes| ==> indexes[i] == old(indexes)[i]
      {
        if indexes[n].table == x.table {
          var oldKey := BuildIndexKey(indexes[n].cols, rows[x]);
          var newKey := BuildIndexKey(indexes[n].cols, after);
          if oldKey != newKey {
            indexes := indexes[n := DeleteEntry(indexes[n], oldKey)];
            if newKey in indexes[n].entries {
              FirstRefusalIs(old(indexes), rows, w, n);
              return false;
            }
            indexes := indexes[n := InsertEntry(indexes[n], newKey, x.rid)];
          }
        }
      }
      FirstRefusalIs(old(indexes), rows, w, |indexes|);
      return true;
    }

    method InsertAllowed(x: Loc, rec: Rec) returns (ok: bool)
      ensures ok <==> CanInsert(Db(), x, rec)
    {
      for n := 0 to |indexes|
        invariant forall i :: 0 <= i < n ==> !InsertClashes(indexes[i], x, rec)
      {
        if InsertClashes(indexes[n], x, rec) {
          return false;
        }
      }
      return true;
    }

    method UpdateAllowed(x: Loc, rec: Rec) returns (ok: bool)
      requires x in rows
      ensures ok <==> CanUpdate(Db(), x, rec)
    {
      for n := 0 to |indexes|
        invariant forall i :: 0 <= i < n ==> !UpdateClashes(indexes[i], x, rows[x], rec)
      {
        if UpdateClashes(indexes[n], x, rows[x], rec) {
          return false;
        }
      }
      return true;
    }

    /** The heap hands out a free place; keys are checked before anything is written. */
    method Insert(txn: K.Transaction, x: Loc, rec: Rec) returns (r: Result)
      requires Consistent(Db()) && x !in rows
      modifies this, txn`writeSet
      ensures Consistent(Db())
      ensures Work(Db(), txn.writeSet) == RowNext(old(Work(Db(), txn.writeSet)), InsertRow(x, rec))
      ensures r == if old(CanInsert(Db(), x, rec)) then Ok else KeyTaken
      ensures r.Ok? <==> AllUnique(old(indexes), old(rows)[x := rec])
      ensures r.Ok? ==> rows == old(rows)[x := rec] && txn.writeSet == old(txn.writeSet) + [InsertTuple(x)]
      ensures r.KeyTaken? ==> Db() == old(Db()) && txn.writeSet == old(txn.writeSet)
      ensures SameSchema(indexes, old(indexes))
    {
      InsertChecksAll(Db(), x, rec);
      RowStepUndone(Work(Db(), txn.writeSet), InsertRow(x, rec));
      var ok := InsertAllowed(x, rec);
      if !ok {
        return KeyTaken;
      }
      FirstRefusalIs(indexes, rows[x := rec], DeleteTuple(x, rec), |indexes|);
      rows := rows[x := rec];
      txn.writeSet := txn.writeSet + [InsertTuple(x)];
      var _ := AddIndexEntries(x, rec);
      SameIndexes(indexes, Inserted(old(Db()), x, rec).indexes);
      return Ok;
    }

    method Delete(txn: K.Transaction, x: Loc) returns (r: Result)
      requires Consistent(Db())
      modifies this, txn`writeSet
      ensures Consistent(Db())
      ensures r == if x in old(rows) then Ok else NotFound
      ensures x in old(rows) ==> Work(Db(), txn.writeSet) == RowNext(old(Work(Db(), txn.writeSet)), DeleteRow(x))
      ensures x !in old(rows) ==> Work(Db(), txn.writeSet) == old(Work(Db(), txn.writeSet))
      ensures r.Ok? ==> rows == old(rows) - {x} && txn.writeSet == old(txn.writeSet) + [DeleteTuple(x, old(rows)[x])]
      ensures SameSchema(indexes, old(indexes))
    {
      if x !in rows {
        return NotFound;
      }
      RowStepUndone(Work(Db(), txn.writeSet), DeleteRow(x));
      var rec := rows[x];
      txn.writeSet := txn.writeSet + [DeleteTuple(x, rec)];
      DropIndexEntries(x, rec);
      rows := rows - {x};
      SameIndexes(indexes, Deleted(old(Db()), x).indexes);
      return Ok;
    }

    /** The write record is appended before the keys are checked, so a refused update leaves one behind. */
    method Update(txn: K.Transaction, x: Loc, rec: Rec) returns (r: Result)
      requires Consistent(Db())
      modifies this, txn`writeSet
      ensures Consistent(Db())
      ensures r == if x !in old(rows) then NotFound else if old(CanUpdate(Db(), x, rec)) then Ok else KeyTaken
      ensures x in old(rows) ==> Work(Db(), txn.writeSet) == RowNext(old(Work(Db(), txn.writeSet)), UpdateRow(x, rec))
      ensures x !in old(rows) ==> Work(Db(), txn.writeSet) == old(Work(Db(), txn.writeSet))
      ensures x in old(rows) ==> (r.Ok? <==> AllUnique(old(indexes), old(rows)[x := rec]))
      ensures r.Ok? ==> rows == old(rows)[x := rec]
      ensures r.KeyTaken? ==> Db() == old(Db())
      ensures x in old(rows) ==> txn.writeSet == old(txn.writeSet) + [UpdateTuple(x, old(rows)[x])]
      ensures SameSchema(indexes, old(indexes))
    {
      if x !in rows {
        return NotFound;
      }
      UpdateChecksAll(Db(), x, rec);
      RowStepUndone(Work(Db(), txn.writeSet), UpdateRow(x, rec));
      txn.writeSet := txn.writeSet + [UpdateTuple(x, rows[x])];
      var ok := UpdateAllowed(x, rec);
      if !ok {
        return KeyTaken;
      }
      UpdateAccepted(Db(), x, rec);
      var _ := MoveIndexEntries(x, rec);
      rows := rows[x := rec];
      SameIndexes(indexes, Updated(old(Db()), x, rec).indexes);
      return Ok;
    }

    /** Pops one write record and takes it back; says whether every index accepted its entry. */
    method UndoLast(txn: K.Transaction) returns (ok: bool)
      requires txn.writeSet != []
      modifies this, txn`writeSet
      ensures var w := old(txn.writeSet)[|old(txn.writeSet)| - 1];
        && txn.writeSet == old(txn.writeSet)[..|old(txn.writeSet)| - 1]
        && (ok <==> FirstRefusal(old(indexes), old(rows), w) == |old(indexes)|)
        && Db() == if ok then UndoWrite(old(Db()), w) else Stopped(old(Db()), w)
    {
      var w := txn.writeSet[|txn.writeSet| - 1];
      txn.writeSet := txn.writeSet[..|txn.writeSet| - 1];
      ok := true;
      match w
      case InsertTuple(x) =>
        FirstRefusalIs(indexes, rows, w, |indexes|);
        if x in rows {
          DropIndexEntries(x, rows[x]);
          rows := rows - {x};
          SameIndexes(indexes, Deleted(old(Db()), x).indexes);
        }
      case DeleteTuple(x, rec) =>
        RefusalElsewhere(indexes, rows, rows[x := rec], x, rec);
        rows := rows[x := rec];
        ok := AddIndexEntries(x, rec);
        SameIndexes(indexes, (if ok then Inserted(old(Db()), x, rec) else Stopped(old(Db()), w)).indexes);
      case UpdateTuple(x, rec) =>
        if x in rows {
          ok := MoveIndexEntries(x, rec);
          SameIndexes(indexes, (if ok then Updated(old(Db()), x, rec) else Stopped(old(Db()), w)).indexes);
          if ok {
            rows := rows[x := rec];
          }
        } else {
          FirstRefusalIs(indexes, rows, w, |indexes|);
        }
    }

    /** The rollback loop of abort; a refused entry throws out of it. */
    method Abort(txn: K.Transaction) returns (ok: bool)
      modifies this, txn`writeSet
      ensures Rolled(Db(), txn.writeSet, ok) == Roll(old(Db()), old(txn.writeSet))
    {
      while txn.writeSet != []
        invariant Roll(Db(), txn.writeSet) == Roll(old(Db()), old(txn.writeSet))
        decreases |txn.writeSet|
      {
        ok := UndoLast(txn);
        if !ok {
          return;
        }
      }
      return true;
    }

    method IndexExists(table: int, cols: seq<Col>) returns (found: bool)
      ensures found <==> HasIndex(Db(), table, cols)
    {
      for n := 0 to |indexes|
        invariant forall i :: 0 <= i < n ==> !(indexes[i].table == table && indexes[i].cols == cols)
      {
        if indexes[n].table == table && indexes[n].cols == cols {
          return true;
        }
      }
      return false;
    }

    /** Fills a new index from the scan and gives it up at the first key met twice. */
    method CreateIndex(table: int, cols: seq<Col>, scan: seq<Loc>) returns (r: Creation)
      requires Consistent(Db()) && ScanOf(scan, rows, table)
      modifies this`indexes
      ensures Consistent(Db())
      ensures Db() == StatementNext(old(Db()), IndexBuild.CreateIndex(table, cols, scan))
      ensures r == if HasIndex(old(Db()), table, cols) then AlreadyExists
                   else if Unique(table, cols, rows) then Created else NotUnique
      ensures r.AlreadyExists? <==>
        exists i :: 0 <= i < |old(indexes)| && old(indexes)[i].table == table && old(indexes)[i].cols == cols
      ensures r.Created? ==>
        && |indexes| == |old(indexes)| + 1 && indexes[..|old(indexes)|] == old(indexes)
        && indexes[|old(indexes)|].table == table && indexes[|old(indexes)|].cols == cols
      ensures !r.Created? ==> indexes == old(indexes)
    {
      StatementKeepsConsistent(Db(), IndexBuild.CreateIndex(table, cols, scan));
      var present := IndexExists(table, cols);
      if present {
        return AlreadyExists;
      }
      var ok, ix := FillIndex(table, cols, rows, scan);
      if !ok {
        return NotUnique;
      }
      indexes := indexes + [ix];
      return Created;
    }

    /** Rebuilds the indexes in turn; a refused key throws, and leaves its index closed. */
    method RebuildIndexes(scans: map<int, seq<Loc>>) returns (ok: bool)
      requires ScansOf(scans, Db()) && ScansMeetRows(scans, rows)
      modifies this`indexes
      ensures Rebuild(indexes, ok) == RebuildAll(old(indexes), rows, scans)
      ensures ok <==> AllUnique(old(indexes), rows)
      ensures ok ==> Consistent(Db()) && SameSchema(indexes, old(indexes))
    {
      var done, rest := [], indexes;
      while rest != []
        invariant indexes == done + rest && ScansOf(scans, Database(rows, rest))
        invariant Resumed(done, rest, rows, scans) == RebuildAll(old(indexes), rows, scans)
        decreases |rest|
      {
        RebuildOne(done, rest, rows, scans);
        var ix := rest[0];
        rest := rest[1..];
        indexes := done + rest;
        var full, filled := FillIndex(ix.table, ix.cols, rows, scans[ix.table]);
        if !full {
          RebuildCompletesIfUnique(old(indexes), rows, scans);
          return false;
        }
        done := done + [filled];
        indexes := done + rest;
      }
      RebuildCompletesIfUnique(old(indexes), rows, scans);
      return true;
    }
  }

  /** The outcome of a rebuild that has these indexes behind it and those before it. */
  ghost function Resumed(done: seq<Index>, rest: seq<Index>, rows: Store, scans: map<int, seq<Loc>>): Rebuild
    requires ScansOf(scans, Database(rows, rest)) && ScansMeetRows(scans, rows)
  {
    var r := RebuildAll(rest, rows, scans);
    Rebuild(done + r.indexes, r.complete)
  }

  lemma RebuildOne(done: seq<Index>, rest: seq<Index>, rows: Store, scans: map<int, seq<Loc>>)
    requires rest != [] && ScansOf(scans, Database(rows, rest)) && ScansMeetRows(scans, rows)
    ensures ScanOf(scans[rest[0].table], rows, rest[0].table) && ScansOf(scans, Database(rows, rest[1..]))
    ensures var f := Fill(rest[0].table, rest[0].cols, rows, scans[rest[0].table]);
      Resumed(done, rest, rows, scans)
      == if f.Refused? then Rebuild(done + rest[1..], false) else Resumed(done + [f.ix], rest[1..], rows, scans)
  {
    var f := Fill(rest[0].table, rest[0].cols, rows, scans[rest[0].table]);
    ScansOfRest(rest, rows, scans);
    if f.Filled? {
      var r := RebuildAll(rest[1..], rows, scans).indexes;
      assert done + ([f.ix] + r) == done + [f.ix] + r;
    }
  }

  /** Together the checks refuse exactly the inserts that would make two rows of the table share a key. */
  lemma InsertChecksAll(db: Database, x: Loc, rec: Rec)
    requires Consistent(db) && x !in db.rows
    ensures CanInsert(db, x, rec) <==> AllUnique(db.indexes, db.rows[x := rec])
  {
    forall i | 0 <= i < |db.indexes|
      ensures !InsertClashes(db.indexes[i], x, rec) <==>
        Unique(db.indexes[i].table, db.indexes[i].cols, db.rows[x := rec])
    {
      InsertCheckIsExact(db.indexes[i], db.rows, x, rec);
    }
  }

  lemma UpdateChecksAll(db: Database, x: Loc, rec: Rec)
    requires Consistent(db) && x in db.rows
    ensures CanUpdate(db, x, rec) <==> AllUnique(db.indexes, db.rows[x := rec])
  {
    forall i | 0 <= i < |db.indexes|
      ensures !UpdateClashes(db.indexes[i], x, db.rows[x], rec) <==>
        Unique(db.indexes[i].table, db.indexes[i].cols, db.rows[x := rec])
    {
      UpdateCheckIsExact(db.indexes[i], db.rows, x, rec);
    }
  }

  lemma UpdateAccepted(db: Database, x: Loc, rec: Rec)
    requires Consistent(db) && x in db.rows && CanUpdate(db, x, rec)
    ensures FirstRefusal(db.indexes, db.rows, UpdateTuple(x, rec)) == |db.indexes|
  {
    forall i | 0 <= i < |db.indexes| ensures EntryAccepted(db.indexes[i], db.rows, UpdateTuple(x, rec)) {
      NewKeyIsFree(db.indexes[i], db.rows, x, rec);
    }
    FirstRefusalIs(db.indexes, db.rows, UpdateTuple(x, rec), |db.indexes|);
  }

  /** Whether an index takes a row back does not depend on the other rows. */
  lemma RefusalElsewhere(indexes: seq<Index>, rows: Store, rows': Store, x: Loc, rec: Rec)
    ensures FirstRefusal(indexes, rows, DeleteTuple(x, rec)) == FirstRefusal(indexes, rows', DeleteTuple(x, rec))
  {
    FirstRefusalIs(indexes, rows, DeleteTuple(x, rec), FirstRefusal(indexes, rows', DeleteTuple(x, rec)));
  }

  /** Reads the heap and enters row after row, up to the first key met twice. */
  method FillIndex(table: int, cols: seq<Col>, rows: Store, scan: seq<Loc>) returns (ok: bool, ix: Index)
    requires ScanOf(scan, rows, table)
    ensures (if ok then Filled(ix) else Refused(ix)) == Fill(table, cols, rows, scan)
    ensures ok <==> Unique(table, cols, rows)
    ensures ok ==> IndexOk(ix, rows) && ix.table == table && ix.cols == cols
  {
    ix := Index(table, cols, map[]);
    for n := 0 to |scan|
      invariant Filled(ix) == Fill(table, cols, rows, scan[..n])
    {
      var x := scan[n];
      var key := BuildIndexKey(cols, rows[x]);
      assert scan[..n + 1][..n] == scan[..n];
      if key in ix.entries {
        StaysRefused(table, cols, rows, scan, n + 1);
        FillCompletesIfUnique(table, cols, rows, scan);
        return false, ix;
      }
      ix := InsertEntry(ix, key, x.rid);
    }
    assert scan[..|scan|] == scan;
    FillCompletesIfUnique(table, cols, rows, scan);
    return true, ix;
  }

  lemma {:induction false} StaysRefused(table: int, cols: seq<Col>, rows: Store, scan: seq<Loc>, n: nat)
    requires n <= |scan| && forall i :: 0 <= i < |scan| ==> scan[i] in rows
    requires Fill(table, cols, rows, scan[..n]).Refused?
    ensures Fill(table, cols, rows, scan) == Fill(table, cols, rows, scan[..n])
    decreases |scan|
  {
    if n < |scan| {
      var front := scan[..|scan| - 1];
      assert front[..n] == scan[..n];
      StaysRefused(table, cols, rows, front, n);
    } else {
      assert scan[..n] == scan;
    }
  }
}
