/** Building an index from a scan of the heap, and every run of statements that keeps indexes. */
module IndexBuild {
  import opened Records
  import opened Tables

  /** A heap scan meets every row of the table exactly once. */
  ghost predicate ScanOf(scan: seq<Loc>, rows: Store, table: int)
  {
    && (forall i :: 0 <= i < |scan| ==> scan[i] in rows && scan[i].table == table)
    && (forall i, j :: 0 <= i < j < |scan| ==> scan[i] != scan[j])
    && (forall x :: x in rows && x.table == table ==> x in scan)
  }

  /** How filling an index ends: with every row in it, or with a key that is there already. */
  datatype Filling = Filled(ix: Index) | Refused(ix: Index)

  /** Entry by entry in scan order, up to the first key that is refused. */
  function Fill(table: int, cols: seq<Col>, rows: Store, scan: seq<Loc>): Filling
    requires forall i :: 0 <= i < |scan| ==> scan[i] in rows
    decreases |scan|
  {
    if scan == [] then Filled(Index(table, cols, map[]))
    else
      var x, f := scan[|scan| - 1], Fill(table, cols, rows, scan[..|scan| - 1]);
      var key := BuildIndexKey(cols, rows[x]);
      if f.Refused? then f
      else if key in f.ix.entries then Refused(f.ix)
      else Filled(InsertEntry(f.ix, key, x.rid))
  }

  lemma {:induction false} FillEntries(table: int, cols: seq<Col>, rows: Store, scan: seq<Loc>)
    requires forall i :: 0 <= i < |scan| ==> scan[i] in rows && scan[i].table == table
    requires forall i, j :: 0 <= i < j < |scan| ==> scan[i] != scan[j]
    ensures var f := Fill(table, cols, rows, scan);
      && f.ix.table == table && f.ix.cols == cols
      && (f.Filled? ==> Enters(f.ix, rows, scan))
      && (f.Refused? ==> !Unique(table, cols, rows))
    decreases |scan|
  {
    if scan != [] {
      var n := |scan| - 1;
      var x, front := scan[n], scan[..n];
      FillEntries(table, cols, rows, front);
      assert scan == front + [x] && x == Loc(table, x.rid);
      var f := Fill(table, cols, rows, front);
      var key := BuildIndexKey(cols, rows[x]);
      if f.Filled? && key in f.ix.entries {
        var y := Loc(table, f.ix.entries[key]);
        assert y in front && SameKey(table, cols, rows, x, y);
      }
    }
  }

  /** The index holds exactly the keys of these rows, each leading to its row. */
  ghost predicate Enters(ix: Index, rows: Store, scan: seq<Loc>)
  {
    && (forall x :: x in scan ==>
      x in rows && ix.KeyOf(rows[x]) in ix.entries && ix.entries[ix.KeyOf(rows[x])] == x.rid)
    && (forall k :: k in ix.entries ==> Loc(ix.table, ix.entries[k]) in scan
                                        && Loc(ix.table, ix.entries[k]) in rows
                                        && ix.KeyOf(rows[Loc(ix.table, ix.entries[k])]) == k)
  }

  /** Filling comes to its end exactly when no two rows share a key, and then the index is right. */
  lemma FillCompletesIfUnique(table: int, cols: seq<Col>, rows: Store, scan: seq<Loc>)
    requires ScanOf(scan, rows, table)
    ensures var f := Fill(table, cols, rows, scan);
      && f.ix.table == table && f.ix.cols == cols
      && (f.Filled? <==> Unique(table, cols, rows))
      && (f.Filled? ==> IndexOk(f.ix, rows))
  {
    FillEntries(table, cols, rows, scan);
    var f := Fill(table, cols, rows, scan);
    if f.Filled? {
      assert IndexOk(f.ix, rows);
      IndexOkIsUnique(f.ix, rows);
    }
  }

  /** Rows and columns determine a right index completely. */
  lemma IndexDetermined(a: Index, b: Index, rows: Store)
    requires IndexOk(a, rows) && IndexOk(b, rows) && a.table == b.table && a.cols == b.cols
    ensures a == b
  {
    forall k | k in a.entries ensures k in b.entries && b.entries[k] == a.entries[k] {
      assert Loc(a.table, a.entries[k]) in rows;
      assert b.KeyOf(rows[Loc(a.table, a.entries[k])]) == k;
    }
    forall k | k in b.entries ensures k in a.entries {
      assert Loc(b.table, b.entries[k]) in rows;
      assert a.KeyOf(rows[Loc(b.table, b.entries[k])]) == k;
    }
    assert a.entries == b.entries;
  }

  // ---------- rebuilding every index ----------

  ghost predicate ScansOf(scans: map<int, seq<Loc>>, db: Database)
  {
    forall i :: 0 <= i < |db.indexes| ==>
      db.indexes[i].table in scans && ScanOf(scans[db.indexes[i].table], db.rows, db.indexes[i].table)
  }

  ghost predicate ScansMeetRows(scans: map<int, seq<Loc>>, rows: Store)
  {
    forall t :: t in scans ==> forall i :: 0 <= i < |scans[t]| ==> scans[t][i] in rows
  }

  /** The open indexes after a rebuild, and whether it came to its end. */
  datatype Rebuild = Rebuild(indexes: seq<Index>, complete: bool)

  /** Each index is closed, emptied and filled again.  A refused key leaves that index closed, and the ones after it
      as they were. */
  function RebuildAll(indexes: seq<Index>, rows: Store, scans: map<int, seq<Loc>>): Rebuild
    requires forall i :: 0 <= i < |indexes| ==> indexes[i].table in scans
    requires ScansMeetRows(scans, rows)
  {
    if indexes == [] then Rebuild([], true)
    else
      var ix := indexes[0];
      var f := Fill(ix.table, ix.cols, rows, scans[ix.table]);
      if f.Refused? then Rebuild(indexes[1..], false)
      else
        var rest := RebuildAll(indexes[1..], rows, scans);
        Rebuild([f.ix] + rest.indexes, rest.complete)
  }

  ghost predicate AllUnique(indexes: seq<Index>, rows: Store)
  {
    forall i :: 0 <= i < |indexes| ==> Unique(indexes[i].table, indexes[i].cols, rows)
  }

  ghost predicate SameSchema(a: seq<Index>, b: seq<Index>)
  {
    |a| == |b| && forall i :: 0 <= i < |a| ==> a[i].table == b[i].table && a[i].cols == b[i].cols
  }

  /** Whatever the indexes held, the rebuild comes to its end exactly when the rows have unique keys, and then every
      index is right; otherwise one index is missing afterwards. */
  lemma {:induction false} RebuildCompletesIfUnique(indexes: seq<Index>, rows: Store, scans: map<int, seq<Loc>>)
    requires ScansOf(scans, Database(rows, indexes)) && ScansMeetRows(scans, rows)
    ensures var r := RebuildAll(indexes, rows, scans);
      && (r.complete <==> AllUnique(indexes, rows))
      && (r.complete ==> SameSchema(r.indexes, indexes) && Consistent(Database(rows, r.indexes)))
      && (!r.complete ==> |r.indexes| == |indexes| - 1)
    decreases |indexes|
  {
    if indexes != [] {
      var ix, rest := indexes[0], indexes[1..];
      ScansOfRest(indexes, rows, scans);
      FillCompletesIfUnique(ix.table, ix.cols, rows, scans[ix.table]);
      RebuildCompletesIfUnique(rest, rows, scans);
      UniqueSplit(indexes, rows);
      var f, r := Fill(ix.table, ix.cols, rows, scans[ix.table]), RebuildAll(rest, rows, scans);
      if f.Filled? && r.complete {
        ConsistentJoin(rows, f.ix, r.indexes);
      }
    }
  }

  lemma ScansOfRest(indexes: seq<Index>, rows: Store, scans: map<int, seq<Loc>>)
    requires indexes != [] && ScansOf(scans, Database(rows, indexes))
    ensures ScanOf(scans[indexes[0].table], rows, indexes[0].table)
    ensures ScansOf(scans, Database(rows, indexes[1..]))
  {
    var rest := indexes[1..];
    forall i | 0 <= i < |rest| ensures rest[i].table in scans && ScanOf(scans[rest[i].table], rows, rest[i].table) {
      assert rest[i] == indexes[i + 1];
    }
  }

  lemma UniqueSplit(indexes: seq<Index>, rows: Store)
    requires indexes != []
    ensures AllUnique(indexes, rows) <==>
      Unique(indexes[0].table, indexes[0].cols, rows) && AllUnique(indexes[1..], rows)
  {
    if Unique(indexes[0].table, indexes[0].cols, rows) && AllUnique(indexes[1..], rows) {
      forall i | 0 <= i < |indexes| ensures Unique(indexes[i].table, indexes[i].cols, rows) {
        assert i > 0 ==> indexes[i] == indexes[1..][i - 1];
      }
    }
  }

  lemma ConsistentJoin(rows: Store, ix: Index, rest: seq<Index>)
    requires IndexOk(ix, rows) && Consistent(Database(rows, rest))
    ensures Consistent(Database(rows, [ix] + rest))
  {
    var db := Database(rows, [ix] + rest);
    forall i | 0 <= i < |db.indexes| ensures IndexOk(db.indexes[i], rows) {
      assert i > 0 ==> IndexOk(Database(rows, rest).indexes[i - 1], rows);
    }
  }

  lemma ConsistentIsUnique(db: Database)
    requires Consistent(db)
    ensures AllUnique(db.indexes, db.rows)
  {
    forall i | 0 <= i < |db.indexes| ensures Unique(db.indexes[i].table, db.indexes[i].cols, db.rows) {
      IndexOkIsUnique(db.indexes[i], db.rows);
    }
  }

  lemma SchemaDetermines(a: seq<Index>, b: seq<Index>, rows: Store)
    requires SameSchema(a, b) && Consistent(Database(rows, a)) && Consistent(Database(rows, b))
    ensures a == b
  {
    forall i | 0 <= i < |a| ensures a[i] == b[i] {
      assert IndexOk(Database(rows, a).indexes[i], rows) && IndexOk(Database(rows, b).indexes[i], rows);
      IndexDetermined(a[i], b[i], rows);
    }
    SameIndexes(a, b);
  }

  /** Rebuilding right indexes gives the same indexes. */
  lemma RebuildOfConsistent(db: Database, scans: map<int, seq<Loc>>)
    requires ScansOf(scans, db) && ScansMeetRows(scans, db.rows) && Consistent(db)
    ensures RebuildAll(db.indexes, db.rows, scans) == Rebuild(db.indexes, true)
  {
    assert db == Database(db.rows, db.indexes);
    ConsistentIsUnique(db);
    RebuildCompletesIfUnique(db.indexes, db.rows, scans);
    SchemaDetermines(RebuildAll(db.indexes, db.rows, scans).indexes, db.indexes, db.rows);
  }

  // ---------- every run of row statements, index creation and rebuilding ----------

  datatype Statement =
    | Row(step: RowStep)
    | CreateIndex(table: int, cols: seq<Col>, scan: seq<Loc>)
    | RebuildIndexes(scans: map<int, seq<Loc>>)

  predicate HasIndex(db: Database, table: int, cols: seq<Col>)
  {
    exists i :: 0 <= i < |db.indexes| && db.indexes[i].table == table && db.indexes[i].cols == cols
  }

  ghost predicate StatementEnabled(db: Database, s: Statement)
  {
    match s
    case Row(step) => RowEnabled(Work(db, []), step)
    case CreateIndex(table, _, scan) => ScanOf(scan, db.rows, table)
    case RebuildIndexes(scans) => ScansOf(scans, db) && ScansMeetRows(scans, db.rows)
  }

  /** An index that exists, or whose keys are not unique, is not created. */
  ghost function StatementNext(db: Database, s: Statement): Database
    requires StatementEnabled(db, s)
  {
    match s
    case Row(step) => RowNext(Work(db, []), step).db
    case CreateIndex(table, cols, scan) =>
      if HasIndex(db, table, cols) || !Unique(table, cols, db.rows) then db
      else db.(indexes := db.indexes + [Fill(table, cols, db.rows, scan).ix])
    case RebuildIndexes(scans) => db.(indexes := RebuildAll(db.indexes, db.rows, scans).indexes)
  }

  ghost predicate StatementRun(db: Database, ss: seq<Statement>, last: Database)
    decreases |ss|
  {
    if ss == [] then last == db
    else StatementEnabled(db, ss[0]) && StatementRun(StatementNext(db, ss[0]), ss[1..], last)
  }

  lemma StatementKeepsConsistent(db: Database, s: Statement)
    requires Consistent(db) && StatementEnabled(db, s)
    ensures Consistent(StatementNext(db, s))
  {
    match s
    case Row(step) => RowStepUndone(Work(db, []), step);
    case CreateIndex(table, cols, scan) => FillCompletesIfUnique(table, cols, db.rows, scan);
    case RebuildIndexes(scans) => RebuildOfConsistent(db, scans);
  }

  /** At every row boundary of every run each index maps exactly the keys of the live rows to their places,
      and so no two rows share a key. */
  lemma {:induction false} IndexesStayConsistent(db: Database, ss: seq<Statement>, last: Database)
    requires Consistent(db) && StatementRun(db, ss, last)
    ensures Consistent(last) && AllUnique(last.indexes, last.rows)
    decreases |ss|
  {
    if ss == [] {
      ConsistentIsUnique(db);
    } else {
      StatementKeepsConsistent(db, ss[0]);
      IndexesStayConsistent(StatementNext(db, ss[0]), ss[1..], last);
    }
  }
}
