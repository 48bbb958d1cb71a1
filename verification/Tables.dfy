/** Rows and the unique indexes over them: what each row statement does, and how a write set takes it back. */
module Tables {
  import opened Rids
  import opened Records
  import opened Schedules

  type Key = seq<int>

  datatype Col = Col(offset: nat, len: nat)

  /** The columns' bytes, one after another. */
  function BuildIndexKey(cols: seq<Col>, rec: Rec): Key
  {
    KeyUpTo(cols, rec, |cols|)
  }

  function KeyUpTo(cols: seq<Col>, rec: Rec, n: nat): Key
    requires n <= |cols|
  {
    if n == 0 then []
    else
      var c := cols[n - 1];
      KeyUpTo(cols, rec, n - 1) + if c.offset + c.len <= |rec| then rec[c.offset..c.offset + c.len] else []
  }

  // ---------- what a key is made of ----------

  /** The record has all the columns. */
  predicate HasCols(cols: seq<Col>, rec: Rec)
  {
    forall i :: 0 <= i < |cols| ==> cols[i].offset + cols[i].len <= |rec|
  }

  /** Where column `i` stands in the key. */
  function KeyStart(cols: seq<Col>, i: nat): nat
    requires i <= |cols|
  {
    if i == 0 then 0 else KeyStart(cols, i - 1) + cols[i - 1].len
  }

  lemma {:induction false} KeyLength(cols: seq<Col>, rec: Rec, n: nat)
    requires HasCols(cols, rec) && n <= |cols|
    ensures |KeyUpTo(cols, rec, n)| == KeyStart(cols, n)
  {
    if n > 0 {
      KeyLength(cols, rec, n - 1);
    }
  }

  /** The key has the columns one after another, in the order of the index, each with the record's bytes at the
      column's offset. */
  lemma KeyMeans(cols: seq<Col>, rec: Rec, i: nat)
    requires HasCols(cols, rec) && i < |cols|
    ensures var key, at := BuildIndexKey(cols, rec), KeyStart(cols, i);
      && |key| == KeyStart(cols, |cols|) && at + cols[i].len <= |key|
      && key[at..at + cols[i].len] == rec[cols[i].offset..cols[i].offset + cols[i].len]
  {
    KeyLength(cols, rec, |cols|);
    ColumnInKey(cols, rec, |cols|, i);
  }

  lemma {:induction false} ColumnInKey(cols: seq<Col>, rec: Rec, n: nat, i: nat)
    requires HasCols(cols, rec) && i < n <= |cols|
    ensures var key, at := KeyUpTo(cols, rec, n), KeyStart(cols, i);
      && at + cols[i].len <= |key|
      && key[at..at + cols[i].len] == rec[cols[i].offset..cols[i].offset + cols[i].len]
  {
    var front, at := KeyUpTo(cols, rec, n - 1), KeyStart(cols, i);
    KeyLength(cols, rec, n - 1);
    if i < n - 1 {
      ColumnInKey(cols, rec, n - 1, i);
      assert KeyUpTo(cols, rec, n)[at..at + cols[i].len] == front[at..at + cols[i].len];
    }
  }

  ghost predicate SameColumn(c: Col, a: Rec, b: Rec)
    requires c.offset + c.len <= |a| && c.offset + c.len <= |b|
  {
    a[c.offset..c.offset + c.len] == b[c.offset..c.offset + c.len]
  }

  /** Two records have one key exactly if they agree on the bytes of every indexed column. */
  lemma SameKeyMeans(cols: seq<Col>, a: Rec, b: Rec)
    requires HasCols(cols, a) && HasCols(cols, b)
    ensures BuildIndexKey(cols, a) == BuildIndexKey(cols, b) <==>
      forall i :: 0 <= i < |cols| ==> SameColumn(cols[i], a, b)
  {
    SameUpTo(cols, a, b, |cols|);
    AgreeMeans(cols, a, b, |cols|);
  }

  ghost predicate AgreeUpTo(cols: seq<Col>, a: Rec, b: Rec, n: nat)
    requires HasCols(cols, a) && HasCols(cols, b) && n <= |cols|
  {
    n == 0 || (AgreeUpTo(cols, a, b, n - 1) && SameColumn(cols[n - 1], a, b))
  }

  lemma {:induction false} AgreeMeans(cols: seq<Col>, a: Rec, b: Rec, n: nat)
    requires HasCols(cols, a) && HasCols(cols, b) && n <= |cols|
    ensures AgreeUpTo(cols, a, b, n) <==> forall i :: 0 <= i < n ==> SameColumn(cols[i], a, b)
  {
    if n > 0 {
      AgreeMeans(cols, a, b, n - 1);
    }
  }

  lemma {:induction false} SameUpTo(cols: seq<Col>, a: Rec, b: Rec, n: nat)
    requires HasCols(cols, a) && HasCols(cols, b) && n <= |cols|
    ensures KeyUpTo(cols, a, n) == KeyUpTo(cols, b, n) <==> AgreeUpTo(cols, a, b, n)
  {
    if n > 0 {
      SameUpTo(cols, a, b, n - 1);
      LastColumn(cols, a, b, n);
    }
  }

  lemma LastColumn(cols: seq<Col>, a: Rec, b: Rec, n: nat)
    requires HasCols(cols, a) && HasCols(cols, b) && 0 < n <= |cols|
    ensures KeyUpTo(cols, a, n) == KeyUpTo(cols, b, n) <==>
      KeyUpTo(cols, a, n - 1) == KeyUpTo(cols, b, n - 1) && SameColumn(cols[n - 1], a, b)
  {
    var c := cols[n - 1];
    KeyStep(cols, a, n);
    KeyStep(cols, b, n);
    SplitEqual(KeyUpTo(cols, a, n), KeyUpTo(cols, a, n - 1), a[c.offset..c.offset + c.len],
               KeyUpTo(cols, b, n), KeyUpTo(cols, b, n - 1), b[c.offset..c.offset + c.len]);
  }

  lemma KeyStep(cols: seq<Col>, rec: Rec, n: nat)
    requires HasCols(cols, rec) && 0 < n <= |cols|
    ensures var c := cols[n - 1];
      && KeyUpTo(cols, rec, n) == KeyUpTo(cols, rec, n - 1) + rec[c.offset..c.offset + c.len]
      && |KeyUpTo(cols, rec, n - 1)| == KeyStart(cols, n - 1)
  {
    KeyLength(cols, rec, n - 1);
  }

  lemma SplitEqual<T>(s: seq<T>, a: seq<T>, b: seq<T>, s': seq<T>, a': seq<T>, b': seq<T>)
    requires s == a + b && s' == a' + b' && |a| == |a'|
    ensures s == s' <==> a == a' && b == b'
  {
    assert a == s[..|a|] && b == s[|a|..];
    assert a' == s'[..|a'|] && b' == s'[|a'|..];
  }

  datatype Index = Index(table: int, cols: seq<Col>, entries: map<Key, Rid>)
  {
    function KeyOf(rec: Rec): Key
    {
      BuildIndexKey(cols, rec)
    }
  }

  datatype Database = Database(rows: Store, indexes: seq<Index>)

  // ---------- one index as the finite map the B+ tree refines ----------

  /** An existing key is refused: the index stays as it is, and the caller gets an exception. */
  function InsertEntry(ix: Index, k: Key, rid: Rid): Index
  {
    if k in ix.entries then ix else ix.(entries := ix.entries[k := rid])
  }

  function DeleteEntry(ix: Index, k: Key): Index
  {
    ix.(entries := ix.entries - {k})
  }

  function WithRow(ix: Index, x: Loc, rec: Rec): Index
  {
    if ix.table == x.table then InsertEntry(ix, ix.KeyOf(rec), x.rid) else ix
  }

  function WithoutRow(ix: Index, x: Loc, rec: Rec): Index
  {
    if ix.table == x.table then DeleteEntry(ix, ix.KeyOf(rec)) else ix
  }

  function RowMoved(ix: Index, x: Loc, before: Rec, after: Rec): Index
  {
    if ix.table == x.table && ix.KeyOf(before) != ix.KeyOf(after) then
      InsertEntry(DeleteEntry(ix, ix.KeyOf(before)), ix.KeyOf(after), x.rid)
    else ix
  }

  /** The key of every row of the table leads to that row, and every entry comes from a row. */
  ghost predicate IndexOk(ix: Index, rows: Store)
  {
    && (forall x :: x in rows && x.table == ix.table ==>
      ix.KeyOf(rows[x]) in ix.entries && ix.entries[ix.KeyOf(rows[x])] == x.rid)
    && (forall k :: k in ix.entries ==>
      Loc(ix.table, ix.entries[k]) in rows && ix.KeyOf(rows[Loc(ix.table, ix.entries[k])]) == k)
  }

  ghost predicate Consistent(db: Database)
  {
    forall i :: 0 <= i < |db.indexes| ==> IndexOk(db.indexes[i], db.rows)
  }

  predicate SameKey(table: int, cols: seq<Col>, rows: Store, x: Loc, y: Loc)
    requires x in rows && y in rows
  {
    x.table == table && y.table == table && BuildIndexKey(cols, rows[x]) == BuildIndexKey(cols, rows[y])
  }

  ghost predicate Unique(table: int, cols: seq<Col>, rows: Store)
  {
    forall x, y :: x in rows && y in rows && SameKey(table, cols, rows, x, y) ==> x == y
  }

  /** The records differ in the bytes of some column. */
  ghost predicate Differ(cols: seq<Col>, a: Rec, b: Rec)
  {
    && HasCols(cols, a) && HasCols(cols, b)
    && exists i :: 0 <= i < |cols| && !SameColumn(cols[i], a, b)
  }

  /** Unique keys: any two rows of the table differ in the bytes of some indexed column. */
  lemma UniqueMeans(table: int, cols: seq<Col>, rows: Store)
    requires forall x :: x in rows && x.table == table ==> HasCols(cols, rows[x])
    ensures Unique(table, cols, rows) <==>
      forall x, y :: x in rows && y in rows && x.table == table && y.table == table && x != y ==>
        Differ(cols, rows[x], rows[y])
  {
    forall x, y | x in rows && y in rows && x.table == table && y.table == table
      ensures SameKey(table, cols, rows, x, y) <==> !Differ(cols, rows[x], rows[y])
    {
      assert HasCols(cols, rows[x]) && HasCols(cols, rows[y]);
      SameKeyMeans(cols, rows[x], rows[y]);
    }
  }

  lemma IndexOkIsUnique(ix: Index, rows: Store)
    requires IndexOk(ix, rows)
    ensures Unique(ix.table, ix.cols, rows)
  {
    forall x, y | x in rows && y in rows && SameKey(ix.table, ix.cols, rows, x, y) ensures x == y
    {
      assert ix.entries[ix.KeyOf(rows[x])] == x.rid;
      assert ix.entries[ix.KeyOf(rows[y])] == y.rid;
    }
  }

  // ---------- the checks made before a row is written ----------

  predicate InsertClashes(ix: Index, x: Loc, rec: Rec)
  {
    ix.table == x.table && ix.KeyOf(rec) in ix.entries
  }

  /** The new key is there already, under another row. */
  predicate UpdateClashes(ix: Index, x: Loc, before: Rec, after: Rec)
  {
    && ix.table == x.table && ix.KeyOf(before) != ix.KeyOf(after)
    && ix.KeyOf(after) in ix.entries && ix.entries[ix.KeyOf(after)] != x.rid
  }

  ghost predicate CanInsert(db: Database, x: Loc, rec: Rec)
  {
    forall i :: 0 <= i < |db.indexes| ==> !InsertClashes(db.indexes[i], x, rec)
  }

  ghost predicate CanUpdate(db: Database, x: Loc, rec: Rec)
    requires x in db.rows
  {
    forall i :: 0 <= i < |db.indexes| ==> !UpdateClashes(db.indexes[i], x, db.rows[x], rec)
  }

  // ---------- the statements, row by row ----------

  function Inserted(db: Database, x: Loc, rec: Rec): Database
  {
    Database(db.rows[x := rec], seq(|db.indexes|, i requires 0 <= i < |db.indexes| => WithRow(db.indexes[i], x, rec)))
  }

  function Deleted(db: Database, x: Loc): Database
    requires x in db.rows
  {
    Database(db.rows - {x},
      seq(|db.indexes|, i requires 0 <= i < |db.indexes| => WithoutRow(db.indexes[i], x, db.rows[x])))
  }

  function Updated(db: Database, x: Loc, rec: Rec): Database
    requires x in db.rows
  {
    Database(db.rows[x := rec],
      seq(|db.indexes|, i requires 0 <= i < |db.indexes| => RowMoved(db.indexes[i], x, db.rows[x], rec)))
  }

  /** Taking one write back, indexes included. */
  function UndoWrite(db: Database, w: WriteRecord): Database
  {
    match w
    case InsertTuple(x) => if x in db.rows then Deleted(db, x) else db
    case DeleteTuple(x, rec) => Inserted(db, x, rec)
    case UpdateTuple(x, rec) => if x in db.rows then Updated(db, x, rec) else db
  }

  /** Every index insert that taking the write back performs finds its key absent. */
  ghost predicate UndoAccepted(db: Database, w: WriteRecord)
  {
    forall i :: 0 <= i < |db.indexes| ==> EntryAccepted(db.indexes[i], db.rows, w)
  }

  predicate EntryAccepted(ix: Index, rows: Store, w: WriteRecord)
  {
    match w
    case InsertTuple(_) => true
    case DeleteTuple(x, rec) => ix.table == x.table ==> ix.KeyOf(rec) !in ix.entries
    case UpdateTuple(x, rec) =>
      x in rows && ix.table == x.table && ix.KeyOf(rows[x]) != ix.KeyOf(rec) ==>
        ix.KeyOf(rec) !in DeleteEntry(ix, ix.KeyOf(rows[x])).entries
  }

  function UndoAll(db: Database, ws: seq<WriteRecord>): Database
    decreases |ws|
  {
    if ws == [] then db else UndoAll(UndoWrite(db, ws[|ws| - 1]), ws[..|ws| - 1])
  }

  ghost predicate AllAccepted(db: Database, ws: seq<WriteRecord>)
    decreases |ws|
  {
    ws == [] || (UndoAccepted(db, ws[|ws| - 1]) && AllAccepted(UndoWrite(db, ws[|ws| - 1]), ws[..|ws| - 1]))
  }

  lemma UndoSnoc(db: Database, ws: seq<WriteRecord>, w: WriteRecord)
    ensures UndoAll(db, ws + [w]) == UndoAll(UndoWrite(db, w), ws)
    ensures AllAccepted(db, ws + [w]) <==> UndoAccepted(db, w) && AllAccepted(UndoWrite(db, w), ws)
  {
    assert (ws + [w])[..|ws + [w]| - 1] == ws;
  }

  // ---------- rollback as it goes: the first refused entry ends it ----------

  /** The first index that refuses an entry while a write is taken back, or the number of indexes. */
  function FirstRefusal(indexes: seq<Index>, rows: Store, w: WriteRecord): (n: nat)
    ensures n <= |indexes|
    ensures forall i :: 0 <= i < n ==> EntryAccepted(indexes[i], rows, w)
    ensures n < |indexes| ==> !EntryAccepted(indexes[n], rows, w)
  {
    if indexes == [] || !EntryAccepted(indexes[0], rows, w) then 0 else 1 + FirstRefusal(indexes[1..], rows, w)
  }

  lemma FirstRefusalIs(indexes: seq<Index>, rows: Store, w: WriteRecord, n: nat)
    requires n <= |indexes| && forall i :: 0 <= i < n ==> EntryAccepted(indexes[i], rows, w)
    requires n < |indexes| ==> !EntryAccepted(indexes[n], rows, w)
    ensures FirstRefusal(indexes, rows, w) == n
  {
    var m := FirstRefusal(indexes, rows, w);
    assert !(m < n) && !(n < m);
  }

  /** What a refusal leaves.  Taking a delete back puts the row in place first and then goes through the indexes;
      taking an update back goes through the indexes first, and has already dropped the current key from the index
      that refuses the old one. */
  function Stopped(db: Database, w: WriteRecord): Database
  {
    var n := FirstRefusal(db.indexes, db.rows, w);
    match w
    case InsertTuple(_) => db
    case DeleteTuple(x, rec) =>
      Database(db.rows[x := rec], seq(|db.indexes|, i requires 0 <= i < |db.indexes| =>
        if i < n then WithRow(db.indexes[i], x, rec) else db.indexes[i]))
    case UpdateTuple(x, rec) =>
      if x !in db.rows then db
      else Database(db.rows, seq(|db.indexes|, i requires 0 <= i < |db.indexes| =>
        if i < n then RowMoved(db.indexes[i], x, db.rows[x], rec)
        else if i == n then WithoutRow(db.indexes[i], x, db.rows[x])
        else db.indexes[i]))
  }

  /** What a refusal leaves, spelled out.  The indexes before the one that refuses have the entry, those after it are as
      they were.  After a delete the row is back and the refusing index unchanged; after an update the row is as it was
      and the refusing index has lost its current key. */
  lemma StoppedMeans(db: Database, w: WriteRecord, n: nat)
    requires n == FirstRefusal(db.indexes, db.rows, w) && n < |db.indexes|
    ensures !w.InsertTuple? && db.indexes[n].table == w.loc.table && (w.UpdateTuple? ==> w.loc in db.rows)
    ensures var s := Stopped(db, w);
      && |s.indexes| == |db.indexes|
      && (forall i :: n < i < |s.indexes| ==> s.indexes[i] == db.indexes[i])
      && (forall i :: 0 <= i < n && db.indexes[i].table == w.loc.table ==>
        var key := BuildIndexKey(db.indexes[i].cols, w.rec);
        if w.UpdateTuple? && key == BuildIndexKey(db.indexes[i].cols, db.rows[w.loc]) then s.indexes[i] == db.indexes[i]
        else key in s.indexes[i].entries && s.indexes[i].entries[key] == w.loc.rid)
      && (w.DeleteTuple? ==> s.rows == db.rows[w.loc := w.rec] && s.indexes[n] == db.indexes[n])
      && (w.UpdateTuple? ==>
        && s.rows == db.rows
        && s.indexes[n].entries == db.indexes[n].entries - {BuildIndexKey(db.indexes[n].cols, db.rows[w.loc])})
  {
    assert !EntryAccepted(db.indexes[n], db.rows, w);
  }

  /** How far a rollback gets: the database, what is left of the write set, and whether it came to its end. */
  datatype Rolled = Rolled(db: Database, left: seq<WriteRecord>, finished: bool)

  /** The record is popped before it is taken back, so a refusal loses it from the write set. */
  function Roll(db: Database, ws: seq<WriteRecord>): Rolled
    decreases |ws|
  {
    if ws == [] then Rolled(db, [], true)
    else
      var w, rest := ws[|ws| - 1], ws[..|ws| - 1];
      if FirstRefusal(db.indexes, db.rows, w) < |db.indexes| then Rolled(Stopped(db, w), rest, false)
      else Roll(UndoWrite(db, w), rest)
  }

  /** It comes to its end exactly if every entry is accepted, and then everything is taken back. */
  lemma {:induction false} RollFinishes(db: Database, ws: seq<WriteRecord>)
    ensures Roll(db, ws).finished <==> AllAccepted(db, ws)
    ensures Roll(db, ws).finished ==> Roll(db, ws) == Rolled(UndoAll(db, ws), [], true)
    ensures !Roll(db, ws).finished ==> |Roll(db, ws).left| < |ws| && Roll(db, ws).left <= ws
    decreases |ws|
  {
    if ws != [] {
      var w, rest := ws[|ws| - 1], ws[..|ws| - 1];
      if FirstRefusal(db.indexes, db.rows, w) == |db.indexes| {
        RollFinishes(UndoWrite(db, w), rest);
      }
    }
  }

  /** On the rows alone this is the rollback of the transaction model. */
  lemma {:induction false} UndoAllRows(db: Database, ws: seq<WriteRecord>)
    ensures UndoAll(db, ws).rows == RollBack(db.rows, ws)
    decreases |ws|
  {
    if ws != [] {
      UndoAllRows(UndoWrite(db, ws[|ws| - 1]), ws[..|ws| - 1]);
    }
  }

  // ---------- each statement keeps one index in step with the rows ----------

  lemma InsertKeepsIndex(ix: Index, rows: Store, x: Loc, rec: Rec)
    requires IndexOk(ix, rows) && x !in rows && !InsertClashes(ix, x, rec)
    ensures IndexOk(WithRow(ix, x, rec), rows[x := rec])
  {
    var next, after := WithRow(ix, x, rec), rows[x := rec];
    forall k | k in next.entries
      ensures Loc(ix.table, next.entries[k]) in after && ix.KeyOf(after[Loc(ix.table, next.entries[k])]) == k
    {
      if k in ix.entries {
        assert Loc(ix.table, ix.entries[k]) in rows;
      } else {
        assert Loc(ix.table, x.rid) == x;
      }
    }
  }

  lemma DeleteKeepsIndex(ix: Index, rows: Store, x: Loc)
    requires IndexOk(ix, rows) && x in rows
    ensures IndexOk(WithoutRow(ix, x, rows[x]), rows - {x})
  {
    var next, after := WithoutRow(ix, x, rows[x]), rows - {x};
    IndexOkIsUnique(ix, rows);
    forall k | k in next.entries
      ensures Loc(ix.table, next.entries[k]) in after && ix.KeyOf(after[Loc(ix.table, next.entries[k])]) == k
    {
      assert Loc(ix.table, ix.entries[k]) in rows;
    }
  }

  lemma UpdateKeepsIndex(ix: Index, rows: Store, x: Loc, rec: Rec)
    requires IndexOk(ix, rows) && x in rows && !UpdateClashes(ix, x, rows[x], rec)
    ensures IndexOk(RowMoved(ix, x, rows[x], rec), rows[x := rec])
  {
    var next, after := RowMoved(ix, x, rows[x], rec), rows[x := rec];
    IndexOkIsUnique(ix, rows);
    NewKeyIsFree(ix, rows, x, rec);
    forall k | k in next.entries
      ensures Loc(ix.table, next.entries[k]) in after && ix.KeyOf(after[Loc(ix.table, next.entries[k])]) == k
    {
      if k in ix.entries {
        assert Loc(ix.table, ix.entries[k]) in rows;
      }
      assert Loc(x.table, x.rid) == x;
    }
  }

  /** When the check passes and the key changes, no row has the new key. */
  lemma NewKeyIsFree(ix: Index, rows: Store, x: Loc, rec: Rec)
    requires IndexOk(ix, rows) && x in rows && !UpdateClashes(ix, x, rows[x], rec)
    ensures ix.table == x.table && ix.KeyOf(rows[x]) != ix.KeyOf(rec) ==> ix.KeyOf(rec) !in ix.entries
  {
    if ix.table == x.table && ix.KeyOf(rec) in ix.entries && ix.entries[ix.KeyOf(rec)] == x.rid {
      assert Loc(ix.table, x.rid) == x;
    }
  }

  /** The check refuses exactly the inserts that would make two rows share a key. */
  lemma InsertCheckIsExact(ix: Index, rows: Store, x: Loc, rec: Rec)
    requires IndexOk(ix, rows) && x !in rows
    ensures !InsertClashes(ix, x, rec) <==> Unique(ix.table, ix.cols, rows[x := rec])
  {
    if InsertClashes(ix, x, rec) {
      var y := Loc(ix.table, ix.entries[ix.KeyOf(rec)]);
      assert y in rows && SameKey(ix.table, ix.cols, rows[x := rec], x, y);
    } else {
      InsertKeepsIndex(ix, rows, x, rec);
      IndexOkIsUnique(WithRow(ix, x, rec), rows[x := rec]);
    }
  }

  /** And exactly the updates that would. */
  lemma UpdateCheckIsExact(ix: Index, rows: Store, x: Loc, rec: Rec)
    requires IndexOk(ix, rows) && x in rows
    ensures !UpdateClashes(ix, x, rows[x], rec) <==> Unique(ix.table, ix.cols, rows[x := rec])
  {
    if UpdateClashes(ix, x, rows[x], rec) {
      var y := Loc(ix.table, ix.entries[ix.KeyOf(rec)]);
      assert y in rows && y != x && SameKey(ix.table, ix.cols, rows[x := rec], x, y);
    } else {
      UpdateKeepsIndex(ix, rows, x, rec);
      IndexOkIsUnique(RowMoved(ix, x, rows[x], rec), rows[x := rec]);
    }
  }

  lemma InsertKeepsConsistent(db: Database, x: Loc, rec: Rec)
    requires Consistent(db) && x !in db.rows && CanInsert(db, x, rec)
    ensures Consistent(Inserted(db, x, rec))
  {
    forall i | 0 <= i < |db.indexes| ensures IndexOk(Inserted(db, x, rec).indexes[i], db.rows[x := rec]) {
      InsertKeepsIndex(db.indexes[i], db.rows, x, rec);
    }
  }

  lemma DeleteKeepsConsistent(db: Database, x: Loc)
    requires Consistent(db) && x in db.rows
    ensures Consistent(Deleted(db, x))
  {
    forall i | 0 <= i < |db.indexes| ensures IndexOk(Deleted(db, x).indexes[i], db.rows - {x}) {
      DeleteKeepsIndex(db.indexes[i], db.rows, x);
    }
  }

  lemma UpdateKeepsConsistent(db: Database, x: Loc, rec: Rec)
    requires Consistent(db) && x in db.rows && CanUpdate(db, x, rec)
    ensures Consistent(Updated(db, x, rec))
  {
    forall i | 0 <= i < |db.indexes| ensures IndexOk(Updated(db, x, rec).indexes[i], db.rows[x := rec]) {
      UpdateKeepsIndex(db.indexes[i], db.rows, x, rec);
    }
  }

  // ---------- and is taken back exactly ----------

  lemma SameIndexes(a: seq<Index>, b: seq<Index>)
    requires |a| == |b| && forall i :: 0 <= i < |a| ==> a[i] == b[i]
    ensures a == b
  {}

  lemma InsertUndone(db: Database, x: Loc, rec: Rec)
    requires x !in db.rows && CanInsert(db, x, rec)
    ensures UndoWrite(Inserted(db, x, rec), InsertTuple(x)) == db
    ensures UndoAccepted(Inserted(db, x, rec), InsertTuple(x))
  {
    var mid := Inserted(db, x, rec);
    var back := UndoWrite(mid, InsertTuple(x));
    forall i | 0 <= i < |db.indexes| ensures back.indexes[i] == db.indexes[i] {
      var ix := db.indexes[i];
      assert !InsertClashes(ix, x, rec);
      assert back.indexes[i] == WithoutRow(WithRow(ix, x, rec), x, rec);
      if ix.table == x.table {
        assert ix.entries[ix.KeyOf(rec) := x.rid] - {ix.KeyOf(rec)} == ix.entries;
      }
    }
    SameIndexes(back.indexes, db.indexes);
    assert back.rows == db.rows;
  }

  lemma DeleteUndone(db: Database, x: Loc)
    requires Consistent(db) && x in db.rows
    ensures UndoWrite(Deleted(db, x), DeleteTuple(x, db.rows[x])) == db
    ensures UndoAccepted(Deleted(db, x), DeleteTuple(x, db.rows[x]))
  {
    var rec, mid := db.rows[x], Deleted(db, x);
    var back := UndoWrite(mid, DeleteTuple(x, rec));
    forall i | 0 <= i < |db.indexes| ensures back.indexes[i] == db.indexes[i] {
      var ix := db.indexes[i];
      assert IndexOk(ix, db.rows);
      assert back.indexes[i] == WithRow(WithoutRow(ix, x, rec), x, rec);
      if ix.table == x.table {
        assert (ix.entries - {ix.KeyOf(rec)})[ix.KeyOf(rec) := x.rid] == ix.entries;
      }
    }
    SameIndexes(back.indexes, db.indexes);
    assert back.rows == db.rows;
  }

  lemma MoveUndone(ix: Index, rows: Store, x: Loc, rec: Rec)
    requires IndexOk(ix, rows) && x in rows && !UpdateClashes(ix, x, rows[x], rec)
    ensures RowMoved(RowMoved(ix, x, rows[x], rec), x, rec, rows[x]) == ix
    ensures EntryAccepted(RowMoved(ix, x, rows[x], rec), rows[x := rec], UpdateTuple(x, rows[x]))
  {
    NewKeyIsFree(ix, rows, x, rec);
    var k, k' := ix.KeyOf(rows[x]), ix.KeyOf(rec);
    if ix.table == x.table && k != k' {
      var mid := (ix.entries - {k})[k' := x.rid];
      assert RowMoved(ix, x, rows[x], rec).entries == mid;
      assert (mid - {k'})[k := x.rid] == ix.entries;
    }
  }

  lemma UpdateUndone(db: Database, x: Loc, rec: Rec)
    requires Consistent(db) && x in db.rows && CanUpdate(db, x, rec)
    ensures UndoWrite(Updated(db, x, rec), UpdateTuple(x, db.rows[x])) == db
    ensures UndoAccepted(Updated(db, x, rec), UpdateTuple(x, db.rows[x]))
  {
    var was, mid := db.rows[x], Updated(db, x, rec);
    var back := UndoWrite(mid, UpdateTuple(x, was));
    forall i | 0 <= i < |db.indexes|
      ensures back.indexes[i] == db.indexes[i]
      ensures EntryAccepted(mid.indexes[i], mid.rows, UpdateTuple(x, was))
    {
      MoveUndone(db.indexes[i], db.rows, x, rec);
    }
    SameIndexes(back.indexes, db.indexes);
    assert back.rows == db.rows;
  }

  /** The record an update leaves behind when a duplicate stops it: taking it back changes nothing. */
  lemma RejectedUpdateUndone(db: Database, x: Loc)
    requires x in db.rows
    ensures UndoWrite(db, UpdateTuple(x, db.rows[x])) == db && UndoAccepted(db, UpdateTuple(x, db.rows[x]))
  {
    var back := UndoWrite(db, UpdateTuple(x, db.rows[x]));
    SameIndexes(back.indexes, db.indexes);
    assert back.rows == db.rows;
  }

  // ---------- any sequence of row statements by one transaction ----------

  datatype RowStep =
    | InsertRow(loc: Loc, rec: Rec)
    | DeleteRow(loc: Loc)
    | UpdateRow(loc: Loc, rec: Rec)

  datatype Work = Work(db: Database, writes: seq<WriteRecord>)

  /** A row is inserted at a free place; the statement stops, changing no row, when a key is taken. */
  ghost predicate RowEnabled(w: Work, s: RowStep)
  {
    if s.InsertRow? then s.loc !in w.db.rows else s.loc in w.db.rows
  }

  ghost function RowNext(w: Work, s: RowStep): Work
    requires RowEnabled(w, s)
  {
    match s
    case InsertRow(x, rec) =>
      if CanInsert(w.db, x, rec) then Work(Inserted(w.db, x, rec), w.writes + [InsertTuple(x)]) else w
    case DeleteRow(x) =>
      Work(Deleted(w.db, x), w.writes + [DeleteTuple(x, w.db.rows[x])])
    case UpdateRow(x, rec) =>
      Work(if CanUpdate(w.db, x, rec) then Updated(w.db, x, rec) else w.db,
           w.writes + [UpdateTuple(x, w.db.rows[x])])
  }

  ghost predicate RowRun(w: Work, steps: seq<RowStep>, last: Work)
    decreases |steps|
  {
    if steps == [] then last == w else RowEnabled(w, steps[0]) && RowRun(RowNext(w, steps[0]), steps[1..], last)
  }

  lemma RowStepUndone(w: Work, s: RowStep)
    requires Consistent(w.db) && RowEnabled(w, s)
    ensures var next := RowNext(w, s);
      && Consistent(next.db)
      && UndoAll(next.db, next.writes) == UndoAll(w.db, w.writes)
      && (AllAccepted(next.db, next.writes) <==> AllAccepted(w.db, w.writes))
  {
    var db, x, next := w.db, s.loc, RowNext(w, s);
    match s
    case InsertRow(_, rec) =>
      if CanInsert(db, x, rec) {
        InsertKeepsConsistent(db, x, rec);
        InsertUndone(db, x, rec);
        UndoSnoc(next.db, w.writes, InsertTuple(x));
      }
    case DeleteRow(_) =>
      DeleteKeepsConsistent(db, x);
      DeleteUndone(db, x);
      UndoSnoc(next.db, w.writes, DeleteTuple(x, db.rows[x]));
    case UpdateRow(_, rec) =>
      UndoSnoc(next.db, w.writes, UpdateTuple(x, db.rows[x]));
      if CanUpdate(db, x, rec) {
        UpdateKeepsConsistent(db, x, rec);
        UpdateUndone(db, x, rec);
      } else {
        RejectedUpdateUndone(db, x);
      }
  }

  lemma {:induction false} RowRunUndone(w: Work, steps: seq<RowStep>, last: Work)
    requires Consistent(w.db) && RowRun(w, steps, last)
    ensures Consistent(last.db)
    ensures UndoAll(last.db, last.writes) == UndoAll(w.db, w.writes)
    ensures AllAccepted(last.db, last.writes) <==> AllAccepted(w.db, w.writes)
    decreases |steps|
  {
    if steps != [] {
      RowStepUndone(w, steps[0]);
      RowRunUndone(RowNext(w, steps[0]), steps[1..], last);
    }
  }

  /** Popping the write set back to front restores every row and every index exactly as they were when the
      transaction began, and no index refuses an entry on the way. */
  lemma RollbackRestores(db: Database, steps: seq<RowStep>, last: Work)
    requires Consistent(db) && RowRun(Work(db, []), steps, last)
    ensures Consistent(last.db)
    ensures AllAccepted(last.db, last.writes)
    ensures Roll(last.db, last.writes) == Rolled(db, [], true)
  {
    RowRunUndone(Work(db, []), steps, last);
    RollFinishes(last.db, last.writes);
  }
}
