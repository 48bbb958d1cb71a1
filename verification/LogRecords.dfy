/** The records of the write-ahead log and what redo and undo make of one place. */
module LogRecords {
  import opened Records

  datatype LogRecord =
    | LogBegin(txn: int)
    | LogInsert(txn: int, loc: Loc, value: Rec)
    | LogDelete(txn: int, loc: Loc, value: Rec)
    | LogUpdate(txn: int, loc: Loc, oldValue: Rec, newValue: Rec)
    | LogCommit(txn: int)
    | LogAbort(txn: int)
  {
    predicate IsWrite()
    {
      LogInsert? || LogDelete? || LogUpdate?
    }

    function Before(): Image
      requires IsWrite()
    {
      if LogInsert? then Absent else if LogDelete? then Present(value) else Present(oldValue)
    }

    function After(): Image
      requires IsWrite()
    {
      if LogInsert? then Present(value) else if LogDelete? then Absent else Present(newValue)
    }
  }

  predicate Hits(r: LogRecord, ts: set<int>, x: Loc)
  {
    r.IsWrite() && r.txn in ts && r.loc == x
  }

  // ---------- the three sets recovery builds from the log ----------

  const INVALID_TXN_ID := -1

  ghost function CommittedIn(log: seq<LogRecord>): set<int>
  {
    set i | 0 <= i < |log| && log[i].LogCommit? :: log[i].txn
  }

  ghost function FinishedIn(log: seq<LogRecord>): set<int>
  {
    set i | 0 <= i < |log| && (log[i].LogCommit? || log[i].LogAbort?) :: log[i].txn
  }

  ghost function AllIn(log: seq<LogRecord>): set<int>
  {
    set i | 0 <= i < |log| && log[i].txn != INVALID_TXN_ID :: log[i].txn
  }

  ghost function LosersIn(log: seq<LogRecord>): set<int>
  {
    AllIn(log) - FinishedIn(log)
  }

  lemma SetsSnoc(log: seq<LogRecord>, r: LogRecord)
    ensures CommittedIn(log + [r]) == CommittedIn(log) + (if r.LogCommit? then {r.txn} else {})
    ensures FinishedIn(log + [r]) == FinishedIn(log) + (if r.LogCommit? || r.LogAbort? then {r.txn} else {})
    ensures AllIn(log + [r]) == AllIn(log) + (if r.txn != INVALID_TXN_ID then {r.txn} else {})
  {
    var next := log + [r];
    assert next[|log|] == r;
    assert forall i :: 0 <= i < |log| ==> next[i] == log[i];
  }

  // ---------- one place ----------

  /** The value redo leaves at a place: the after-image of the last winner's write there, if any. */
  function RedoAt(log: seq<LogRecord>, winners: set<int>, x: Loc, v: Image): Image
    decreases |log|
  {
    if log == [] then v
    else
      var r := log[|log| - 1];
      if Hits(r, winners, x) then r.After() else RedoAt(log[..|log| - 1], winners, x, v)
  }

  /** Undo walks back from the end of the log, so the first write of a loser decides. */
  function UndoAt(log: seq<LogRecord>, losers: set<int>, x: Loc, v: Image): Image
    decreases |log|
  {
    if log == [] then v
    else
      var r := log[|log| - 1];
      UndoAt(log[..|log| - 1], losers, x, if Hits(r, losers, x) then r.Before() else v)
  }

  lemma AtSnoc(log: seq<LogRecord>, r: LogRecord, ts: set<int>, x: Loc, v: Image)
    ensures RedoAt(log + [r], ts, x, v) == if Hits(r, ts, x) then r.After() else RedoAt(log, ts, x, v)
    ensures UndoAt(log + [r], ts, x, v) == UndoAt(log, ts, x, if Hits(r, ts, x) then r.Before() else v)
  {
    assert (log + [r])[..|log + [r]| - 1] == log;
  }

  ghost predicate WrittenBy(log: seq<LogRecord>, ts: set<int>, x: Loc)
  {
    exists i :: 0 <= i < |log| && Hits(log[i], ts, x)
  }

  lemma WrittenBySnoc(log: seq<LogRecord>, r: LogRecord, ts: set<int>, x: Loc)
    ensures WrittenBy(log + [r], ts, x) <==> WrittenBy(log, ts, x) || Hits(r, ts, x)
  {
    var next := log + [r];
    assert next[|log|] == r;
    if WrittenBy(log, ts, x) {
      var i :| 0 <= i < |log| && Hits(log[i], ts, x);
      assert next[i] == log[i];
    }
    if WrittenBy(next, ts, x) {
      var i :| 0 <= i < |next| && Hits(next[i], ts, x);
      assert i < |log| ==> next[i] == log[i];
    }
  }

  lemma {:induction false} RedoUntouched(log: seq<LogRecord>, ts: set<int>, x: Loc, v: Image)
    requires !WrittenBy(log, ts, x)
    ensures RedoAt(log, ts, x, v) == v
    decreases |log|
  {
    if log != [] {
      var n := |log| - 1;
      assert log == log[..n] + [log[n]];
      WrittenBySnoc(log[..n], log[n], ts, x);
      RedoUntouched(log[..n], ts, x, v);
    }
  }

  lemma {:induction false} UndoUntouched(log: seq<LogRecord>, ts: set<int>, x: Loc, v: Image)
    requires !WrittenBy(log, ts, x)
    ensures UndoAt(log, ts, x, v) == v
    decreases |log|
  {
    if log != [] {
      var n := |log| - 1;
      assert log == log[..n] + [log[n]];
      WrittenBySnoc(log[..n], log[n], ts, x);
      UndoUntouched(log[..n], ts, x, v);
    }
  }

  /** A place somebody wrote no longer depends on what it held before. */
  lemma {:induction false} RedoForgets(log: seq<LogRecord>, ts: set<int>, x: Loc, v: Image, w: Image)
    requires WrittenBy(log, ts, x)
    ensures RedoAt(log, ts, x, v) == RedoAt(log, ts, x, w)
    decreases |log|
  {
    if log != [] {
      var n := |log| - 1;
      assert log == log[..n] + [log[n]];
      WrittenBySnoc(log[..n], log[n], ts, x);
      if !Hits(log[n], ts, x) {
        RedoForgets(log[..n], ts, x, v, w);
      }
    }
  }

  lemma {:induction false} UndoForgets(log: seq<LogRecord>, ts: set<int>, x: Loc, v: Image, w: Image)
    requires WrittenBy(log, ts, x)
    ensures UndoAt(log, ts, x, v) == UndoAt(log, ts, x, w)
    decreases |log|
  {
    if log != [] {
      var n := |log| - 1;
      assert log == log[..n] + [log[n]];
      WrittenBySnoc(log[..n], log[n], ts, x);
      if !Hits(log[n], ts, x) {
        UndoForgets(log[..n], ts, x, v, w);
      }
    }
  }

  /** Transactions that never wrote the place make no difference to it. */
  lemma {:induction false} OthersDoNotMatter(log: seq<LogRecord>, ts: set<int>, us: set<int>, x: Loc, v: Image)
    requires forall i :: 0 <= i < |log| ==> (Hits(log[i], ts, x) <==> Hits(log[i], us, x))
    ensures RedoAt(log, ts, x, v) == RedoAt(log, us, x, v)
    ensures UndoAt(log, ts, x, v) == UndoAt(log, us, x, v)
    decreases |log|
  {
    if log != [] {
      var n := |log| - 1;
      var r := log[n];
      assert Hits(r, ts, x) <==> Hits(r, us, x);
      OthersDoNotMatter(log[..n], ts, us, x, v);
      OthersDoNotMatter(log[..n], ts, us, x, if Hits(r, ts, x) then r.Before() else v);
    }
  }
}
