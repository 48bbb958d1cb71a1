/** The log of a run says enough: from any crash image redo and undo rebuild the committed store. */
module RecoveryModel {
  import L = LockModel
  import opened Records
  import opened Schedules
  import opened LogRecords
  import opened TwoPhase
  import opened Serializability

  // ---------- what the log of a run keeps ----------

  /** The sets recovery builds are the transactions that committed and those still running. */
  ghost predicate LogSets(st: State)
  {
    && AllIn(st.log) == st.locks.states.Keys
    && LosersIn(st.log) == st.txns.Keys
    && CommittedIn(st.log) !! st.txns.Keys
    && CommittedIn(st.log) <= st.locks.states.Keys
    && (forall t :: t in st.locks.states ==> 0 <= t)
  }

  ghost predicate LogTraces(st: State)
  {
    forall t, x :: t in st.txns ==> (WrittenBy(st.log, {t}, x) <==> WritesAt(st.txns[t].trace, x))
  }

  ghost predicate RedoServes(s0: Store, c: Store, st: State)
  {
    forall x :: RedoAt(st.log, CommittedIn(st.log), x, Get(s0, x)) == Get(c, x)
  }

  /** Were a live transaction to commit now, redo would replay it as well. */
  ghost predicate RedoWouldServe(s0: Store, c: Store, st: State)
  {
    forall t, x :: t in st.txns ==>
      RedoAt(st.log, CommittedIn(st.log) + {t}, x, Get(s0, x)) == Get(Replay(c, st.txns[t].trace), x)
  }

  ghost predicate UndoServes(c: Store, st: State)
  {
    forall x, v :: UndoAt(st.log, st.txns.Keys, x, v) == if WrittenBy(st.log, st.txns.Keys, x) then Get(c, x) else v
  }

  ghost predicate LogInv(s0: Store, c: Store, st: State)
  {
    LogSets(st) && LogTraces(st) && RedoServes(s0, c, st) && RedoWouldServe(s0, c, st) && UndoServes(c, st)
  }

  // ---------- a record that writes nothing ----------

  lemma SilentRecord(log: seq<LogRecord>, r: LogRecord, ts: set<int>, x: Loc, v: Image)
    requires !r.IsWrite()
    ensures RedoAt(log + [r], ts, x, v) == RedoAt(log, ts, x, v)
    ensures UndoAt(log + [r], ts, x, v) == UndoAt(log, ts, x, v)
    ensures WrittenBy(log + [r], ts, x) <==> WrittenBy(log, ts, x)
  {
    AtSnoc(log, r, ts, x, v);
    WrittenBySnoc(log, r, ts, x);
  }

  /** Adding or removing a transaction that did not write the place changes nothing there. */
  lemma StrangersDoNotMatter(log: seq<LogRecord>, ts: set<int>, t: int, x: Loc, v: Image)
    requires !WrittenBy(log, {t}, x)
    ensures RedoAt(log, ts + {t}, x, v) == RedoAt(log, ts, x, v)
    ensures UndoAt(log, ts + {t}, x, v) == UndoAt(log, ts, x, v)
    ensures UndoAt(log, ts - {t}, x, v) == UndoAt(log, ts, x, v)
    ensures WrittenBy(log, ts + {t}, x) <==> WrittenBy(log, ts, x)
    ensures WrittenBy(log, ts - {t}, x) <==> WrittenBy(log, ts, x)
  {
    var more, less := ts + {t}, ts - {t};
    forall i | 0 <= i < |log|
      ensures Hits(log[i], more, x) <==> Hits(log[i], ts, x)
      ensures Hits(log[i], less, x) <==> Hits(log[i], ts, x)
    {
      assert !Hits(log[i], {t}, x);
    }
    OthersDoNotMatter(log, more, ts, x, v);
    OthersDoNotMatter(log, less, ts, x, v);
  }

  lemma UnknownWroteNothing(log: seq<LogRecord>, t: int, x: Loc)
    requires t !in AllIn(log) && t != INVALID_TXN_ID
    ensures !WrittenBy(log, {t}, x)
  {
    forall i | 0 <= i < |log| ensures !Hits(log[i], {t}, x) {
      assert log[i].txn != t;
    }
  }

  // ---------- a row write ----------

  lemma WriteKeepsLogTraces(st: State, t: TxnId, x: Loc, v: Image, r: LogRecord, w: WriteRecord)
    requires t in st.txns && LogTraces(st) && r.IsWrite() && r.txn == t && r.loc == x
    ensures LogTraces(AfterWrite(st, t, x, v, r, w))
  {
    var st' := AfterWrite(st, t, x, v, r, w);
    forall u, y | u in st'.txns ensures WrittenBy(st'.log, {u}, y) <==> WritesAt(st'.txns[u].trace, y) {
      WrittenBySnoc(st.log, r, {u}, y);
      if u == t {
        WritesAtSnoc(st.txns[t].trace, Write(x, Get(st.store, x), v), y);
      }
    }
  }

  lemma WritesAtSnoc(ops: seq<Op>, op: Op, y: Loc)
    ensures WritesAt(ops + [op], y) <==> WritesAt(ops, y) || (op.Write? && op.loc == y)
  {
    var next := ops + [op];
    assert next[|ops|] == op;
    if WritesAt(ops, y) {
      var i :| 0 <= i < |ops| && ops[i].Write? && ops[i].loc == y;
      assert next[i] == ops[i];
    }
    if WritesAt(next, y) {
      var i :| 0 <= i < |next| && next[i].Write? && next[i].loc == y;
      assert i < |ops| ==> next[i] == ops[i];
    }
  }

  lemma WriteKeepsRedo(s0: Store, c: Store, st: State, t: TxnId, x: Loc, v: Image, r: LogRecord, w: WriteRecord)
    requires t in st.txns && CommittedIn(st.log) !! st.txns.Keys
    requires RedoServes(s0, c, st) && RedoWouldServe(s0, c, st)
    requires r.IsWrite() && r.txn == t && r.loc == x && r.After() == v
    ensures RedoServes(s0, c, AfterWrite(st, t, x, v, r, w)) && RedoWouldServe(s0, c, AfterWrite(st, t, x, v, r, w))
  {
    var st' := AfterWrite(st, t, x, v, r, w);
    var winners := CommittedIn(st.log);
    SetsSnoc(st.log, r);
    assert CommittedIn(st'.log) == winners;
    forall y ensures RedoAt(st'.log, winners, y, Get(s0, y)) == Get(c, y) {
      AtSnoc(st.log, r, winners, y, Get(s0, y));
    }
    forall u, y | u in st'.txns
      ensures RedoAt(st'.log, winners + {u}, y, Get(s0, y)) == Get(Replay(c, st'.txns[u].trace), y)
    {
      AtSnoc(st.log, r, winners + {u}, y, Get(s0, y));
      if u == t {
        var trace := st.txns[t].trace;
        ReplaySnoc(c, trace, Write(x, Get(st.store, x), v));
        PutGet(Replay(c, trace), x, v);
      }
    }
  }

  lemma WriteKeepsUndo(c: Store, st: State, t: TxnId, x: Loc, v: Image, r: LogRecord, w: WriteRecord)
    requires t in st.txns && LogTraces(st) && UndoServes(c, st) && OwnerView(c, st) && OwnsX(st, t, x.table)
    requires r.IsWrite() && r.txn == t && r.loc == x && r.Before() == Get(st.store, x)
    ensures UndoServes(c, AfterWrite(st, t, x, v, r, w))
  {
    var st' := AfterWrite(st, t, x, v, r, w);
    var losers := st.txns.Keys;
    assert st'.txns.Keys == losers;
    forall y, u ensures UndoAt(st'.log, losers, y, u) == if WrittenBy(st'.log, losers, y) then Get(c, y) else u {
      AtSnoc(st.log, r, losers, y, u);
      WrittenBySnoc(st.log, r, losers, y);
      if y == x && !WrittenBy(st.log, losers, x) {
        FirstWriteSavesCommitted(c, st, t, x);
      }
    }
  }

  /** Before its first write of a row a transaction finds the committed row there. */
  lemma FirstWriteSavesCommitted(c: Store, st: State, t: TxnId, x: Loc)
    requires t in st.txns && LogTraces(st) && OwnerView(c, st) && OwnsX(st, t, x.table)
    requires !WrittenBy(st.log, st.txns.Keys, x)
    ensures Get(st.store, x) == Get(c, x)
  {
    var trace := st.txns[t].trace;
    forall i | 0 <= i < |st.log| ensures !Hits(st.log[i], {t}, x) {
      assert !Hits(st.log[i], st.txns.Keys, x);
    }
    assert !WrittenBy(st.log, {t}, x);
    assert !WritesAt(trace, x);
    ReplayKeepsPlace(c, trace, x);
    assert AgreeOn(st.store, Replay(c, trace), x.table);
  }

  lemma WriteKeepsLogInv(s0: Store, c: Store, st: State, t: TxnId, x: Loc, v: Image, r: LogRecord, w: WriteRecord)
    requires t in st.txns && LogInv(s0, c, st) && OwnerView(c, st) && OwnsX(st, t, x.table)
    requires r.IsWrite() && r.txn == t && r.loc == x && r.Before() == Get(st.store, x) && r.After() == v
    ensures LogInv(s0, c, AfterWrite(st, t, x, v, r, w))
  {
    assert t in AllIn(st.log);
    SetsSnoc(st.log, r);
    assert AfterWrite(st, t, x, v, r, w).txns.Keys == st.txns.Keys;
    WriteKeepsLogTraces(st, t, x, v, r, w);
    WriteKeepsRedo(s0, c, st, t, x, v, r, w);
    WriteKeepsUndo(c, st, t, x, v, r, w);
  }

  // ---------- steps that write nothing ----------

  lemma ScanKeepsLogInv(s0: Store, c: Store, st: State, t: TxnId, tab: int)
    requires t in st.txns && LogInv(s0, c, st)
    ensures LogInv(s0, c, AfterScan(st, t, tab))
  {
    var st' := AfterScan(st, t, tab);
    assert st'.txns.Keys == st.txns.Keys;
    var trace, op := st.txns[t].trace, Read(tab, Table(st.store, tab));
    ReplaySnoc(c, trace, op);
    forall u, x | u in st'.txns ensures WrittenBy(st'.log, {u}, x) <==> WritesAt(st'.txns[u].trace, x) {
      WritesAtSnoc(trace, op, x);
    }
  }

  lemma RejectKeepsLogInv(s0: Store, c: Store, st: State, t: TxnId, x: Loc)
    requires t in st.txns && x in st.store && LogInv(s0, c, st)
    ensures LogInv(s0, c, AfterReject(st, t, x))
  {
    var st' := AfterReject(st, t, x);
    assert st'.txns.Keys == st.txns.Keys;
    assert forall u :: u in st.txns ==> st'.txns[u].trace == st.txns[u].trace;
  }

  lemma BeginKeepsLogInv(s0: Store, c: Store, st: State, t: TxnId)
    requires LogInv(s0, c, st) && 0 <= t && t !in st.locks.states
    ensures LogInv(s0, c, AfterBegin(st, t))
  {
    var st' := AfterBegin(st, t);
    SetsSnoc(st.log, LogBegin(t));
    FinishedAreKnown(st.log);
    assert st'.txns.Keys == st.txns.Keys + {t} && CommittedIn(st'.log) == CommittedIn(st.log);
    BeginKeepsLogTraces(st, st', t);
    BeginKeepsRedo(s0, c, st, st', t);
    BeginKeepsUndo(c, st, st', t);
  }

  lemma BeginKeepsLogTraces(st: State, st': State, t: TxnId)
    requires LogTraces(st) && t !in AllIn(st.log) && 0 <= t
    requires st'.log == st.log + [LogBegin(t)] && st'.txns == st.txns[t := Txn([], [])]
    ensures LogTraces(st')
  {
    forall u, x | u in st'.txns ensures WrittenBy(st'.log, {u}, x) <==> WritesAt(st'.txns[u].trace, x) {
      SilentRecord(st.log, LogBegin(t), {u}, x, Absent);
      if u == t {
        UnknownWroteNothing(st.log, t, x);
      }
    }
  }

  lemma BeginKeepsRedo(s0: Store, c: Store, st: State, st': State, t: TxnId)
    requires RedoServes(s0, c, st) && RedoWouldServe(s0, c, st) && t !in AllIn(st.log) && 0 <= t
    requires st'.log == st.log + [LogBegin(t)] && st'.txns == st.txns[t := Txn([], [])]
    requires CommittedIn(st'.log) == CommittedIn(st.log)
    ensures RedoServes(s0, c, st') && RedoWouldServe(s0, c, st')
  {
    var winners := CommittedIn(st.log);
    forall x ensures RedoAt(st'.log, winners, x, Get(s0, x)) == Get(c, x) {
      SilentRecord(st.log, LogBegin(t), winners, x, Get(s0, x));
    }
    forall u, x | u in st'.txns
      ensures RedoAt(st'.log, winners + {u}, x, Get(s0, x)) == Get(Replay(c, st'.txns[u].trace), x)
    {
      SilentRecord(st.log, LogBegin(t), winners + {u}, x, Get(s0, x));
      if u == t {
        UnknownWroteNothing(st.log, t, x);
        StrangersDoNotMatter(st.log, winners, t, x, Get(s0, x));
      }
    }
  }

  lemma BeginKeepsUndo(c: Store, st: State, st': State, t: TxnId)
    requires UndoServes(c, st) && t !in AllIn(st.log) && 0 <= t
    requires st'.log == st.log + [LogBegin(t)] && st'.txns.Keys == st.txns.Keys + {t}
    ensures UndoServes(c, st')
  {
    var losers := st'.txns.Keys;
    forall x, v ensures UndoAt(st'.log, losers, x, v) == if WrittenBy(st'.log, losers, x) then Get(c, x) else v {
      SilentRecord(st.log, LogBegin(t), losers, x, v);
      UnknownWroteNothing(st.log, t, x);
      StrangersDoNotMatter(st.log, st.txns.Keys, t, x, v);
    }
  }

  lemma FinishedAreKnown(log: seq<LogRecord>)
    ensures forall t :: t in FinishedIn(log) && t != INVALID_TXN_ID ==> t in AllIn(log)
  {}

  // ---------- finishing ----------

  /** Two live transactions never wrote the same place. */
  lemma OneWriter(st: State, t: TxnId, u: TxnId, x: Loc)
    requires Locked(st) && Traced(st) && LogTraces(st) && t in st.txns && u in st.txns && t != u
    requires WrittenBy(st.log, {u}, x)
    ensures !WrittenBy(st.log, {t}, x) && !OwnsX(st, t, x.table)
  {
    assert WritesAt(st.txns[u].trace, x);
    assert TraceLocked(st, u) && TraceLocked(st, t);
    assert OwnsX(st, u, x.table);
    if OwnsX(st, t, x.table) {
      Exclusion(st, t, u, x.table);
    }
    assert WritesAt(st.txns[t].trace, x) ==> OwnsX(st, t, x.table);
  }

  lemma WriterInSet(log: seq<LogRecord>, ts: set<int>, x: Loc) returns (u: int)
    requires WrittenBy(log, ts, x)
    ensures u in ts && WrittenBy(log, {u}, x)
  {
    var i :| 0 <= i < |log| && Hits(log[i], ts, x);
    u := log[i].txn;
    assert Hits(log[i], {u}, x);
  }

  lemma FinishKeepsUndo(c: Store, c': Store, st: State, st': State, t: TxnId, r: LogRecord)
    requires t in st.txns && Locked(st) && Traced(st) && LogTraces(st) && UndoServes(c, st)
    requires !r.IsWrite() && st'.log == st.log + [r] && st'.txns == st.txns - {t}
    requires forall tab :: !OwnsX(st, t, tab) ==> AgreeOn(c, c', tab)
    ensures UndoServes(c', st')
  {
    var losers := st'.txns.Keys;
    assert losers == st.txns.Keys - {t};
    forall x, v ensures UndoAt(st'.log, losers, x, v) == if WrittenBy(st'.log, losers, x) then Get(c', x) else v {
      SilentRecord(st.log, r, losers, x, v);
      if WrittenBy(st.log, losers, x) {
        var u := WriterInSet(st.log, losers, x);
        OneWriter(st, t, u, x);
        StrangersDoNotMatter(st.log, st.txns.Keys, t, x, v);
        assert AgreeOn(c, c', x.table);
      } else {
        UndoUntouched(st.log, losers, x, v);
      }
    }
  }

  lemma CommitKeepsRedo(s0: Store, c: Store, st: State, t: TxnId)
    requires t in st.txns && L.Live(st.locks, t) && Locked(st) && Traced(st) && LogTraces(st)
    requires RedoServes(s0, c, st) && RedoWouldServe(s0, c, st)
    ensures RedoServes(s0, Replay(c, st.txns[t].trace), AfterCommit(st, t))
    ensures RedoWouldServe(s0, Replay(c, st.txns[t].trace), AfterCommit(st, t))
  {
    var st', c' := AfterCommit(st, t), Replay(c, st.txns[t].trace);
    var winners := CommittedIn(st.log) + {t};
    SetsSnoc(st.log, LogCommit(t));
    assert CommittedIn(st'.log) == winners;
    forall x ensures RedoAt(st'.log, winners, x, Get(s0, x)) == Get(c', x) {
      SilentRecord(st.log, LogCommit(t), winners, x, Get(s0, x));
    }
    forall u, x | u in st'.txns
      ensures RedoAt(st'.log, winners + {u}, x, Get(s0, x)) == Get(Replay(c', st'.txns[u].trace), x)
    {
      SilentRecord(st.log, LogCommit(t), winners + {u}, x, Get(s0, x));
      NextWinner(s0, c, st, t, u, x);
    }
  }

  /** After `t` commits, redo with another live `u` added still gives what `u` would leave. */
  lemma NextWinner(s0: Store, c: Store, st: State, t: TxnId, u: TxnId, x: Loc)
    requires t in st.txns && u in st.txns && u != t && Locked(st) && Traced(st) && LogTraces(st)
    requires RedoServes(s0, c, st) && RedoWouldServe(s0, c, st)
    ensures var c' := Replay(c, st.txns[t].trace);
      RedoAt(st.log, CommittedIn(st.log) + {t} + {u}, x, Get(s0, x)) == Get(Replay(c', st.txns[u].trace), x)
  {
    var winners := CommittedIn(st.log);
    var c' := Replay(c, st.txns[t].trace);
    if WrittenBy(st.log, {u}, x) {
      OneWriter(st, t, u, x);
      assert winners + {t} + {u} == winners + {u} + {t};
      StrangersDoNotMatter(st.log, winners + {u}, t, x, Get(s0, x));
      CommitLeaves(c, st, t, x.table);
      ReplayAgrees(c, c', st.txns[u].trace, x.table);
    } else {
      StrangersDoNotMatter(st.log, winners + {t}, u, x, Get(s0, x));
      ReplayKeepsPlace(c', st.txns[u].trace, x);
    }
  }

  lemma FinishKeepsSets(st: State, st': State, t: TxnId, r: LogRecord)
    requires t in st.txns && Locked(st) && LogSets(st) && r.txn == t && (r.LogCommit? || r.LogAbort?)
    requires st'.log == st.log + [r] && st'.txns == st.txns - {t} && st'.locks.states.Keys == st.locks.states.Keys
    ensures LogSets(st')
  {
    SetsSnoc(st.log, r);
    assert t in AllIn(st.log);
  }

  lemma FinishKeepsLogTraces(st: State, st': State, t: TxnId, r: LogRecord)
    requires LogTraces(st) && !r.IsWrite() && st'.log == st.log + [r] && st'.txns == st.txns - {t}
    ensures LogTraces(st')
  {
    forall u, x | u in st'.txns ensures WrittenBy(st'.log, {u}, x) <==> WritesAt(st'.txns[u].trace, x) {
      SilentRecord(st.log, r, {u}, x, Absent);
    }
  }

  lemma CommitKeepsLogInv(s0: Store, c: Store, st: State, t: TxnId)
    requires t in st.txns && L.Live(st.locks, t) && Locked(st) && Traced(st) && LogInv(s0, c, st)
    ensures LogInv(s0, Replay(c, st.txns[t].trace), AfterCommit(st, t))
  {
    var st', c' := AfterCommit(st, t), Replay(c, st.txns[t].trace);
    FinishKeepsSets(st, st', t, LogCommit(t));
    FinishKeepsLogTraces(st, st', t, LogCommit(t));
    CommitKeepsRedo(s0, c, st, t);
    forall tab | !OwnsX(st, t, tab) ensures AgreeOn(c, c', tab) {
      CommitLeaves(c, st, t, tab);
    }
    FinishKeepsUndo(c, c', st, st', t, LogCommit(t));
  }

  lemma AbortKeepsLogInv(s0: Store, c: Store, st: State, t: TxnId)
    requires t in st.txns && L.Live(st.locks, t) && Locked(st) && Traced(st) && LogInv(s0, c, st)
    ensures LogInv(s0, c, AfterAbort(st, t))
  {
    var st' := AfterAbort(st, t);
    var winners, r := CommittedIn(st.log), LogAbort(t);
    FinishKeepsSets(st, st', t, r);
    FinishKeepsLogTraces(st, st', t, r);
    SetsSnoc(st.log, r);
    assert CommittedIn(st'.log) == winners;
    forall x ensures RedoAt(st'.log, winners, x, Get(s0, x)) == Get(c, x) {
      SilentRecord(st.log, r, winners, x, Get(s0, x));
    }
    forall u, x | u in st'.txns
      ensures RedoAt(st'.log, winners + {u}, x, Get(s0, x)) == Get(Replay(c, st'.txns[u].trace), x)
    {
      SilentRecord(st.log, r, winners + {u}, x, Get(s0, x));
    }
    FinishKeepsUndo(c, c, st, st', t, r);
  }

  // ---------- every run ----------

  lemma StepKeepsLogInv(s0: Store, st: State, s: Step)
    requires Inv(s0, st) && LogInv(s0, SerialRun(s0, st.committed), st) && Enabled(st, s)
    ensures LogInv(s0, SerialRun(s0, Next(st, s).committed), Next(st, s))
  {
    var c := SerialRun(s0, st.committed);
    match s
    case Begin(t) => BeginKeepsLogInv(s0, c, st, t);
    case Lock(t, tab, exclusive) =>
      assert AfterLock(st, t, tab, exclusive).locks.states == st.locks.states;
    case Scan(t, tab) => ScanKeepsLogInv(s0, c, st, t, tab);
    case RejectedUpdate(t, x) => RejectKeepsLogInv(s0, c, st, t, x);
    case Commit(t) =>
      CommitKeepsLogInv(s0, c, st, t);
      SerialSnoc(s0, st.committed, Done(t, st.txns[t].trace));
    case Abort(t) => AbortKeepsLogInv(s0, c, st, t);
    case Insert(t, x, rec) =>
      WriteKeepsLogInv(s0, c, st, t, x, Present(rec), LogInsert(t, x, rec), InsertTuple(x));
    case Delete(t, x) =>
      WriteKeepsLogInv(s0, c, st, t, x, Absent, LogDelete(t, x, st.store[x]), DeleteTuple(x, st.store[x]));
    case Update(t, x, rec) =>
      WriteKeepsLogInv(s0, c, st, t, x, Present(rec), LogUpdate(t, x, st.store[x], rec), UpdateTuple(x, st.store[x]));
  }

  lemma {:induction false} RunKeepsLogInv(s0: Store, st: State, steps: seq<Step>, last: State)
    requires Inv(s0, st) && LogInv(s0, SerialRun(s0, st.committed), st) && Run(st, steps, last)
    ensures Inv(s0, last) && LogInv(s0, SerialRun(s0, last.committed), last)
    decreases |steps|
  {
    if steps != [] {
      StepKeepsInv(s0, st, steps[0]);
      StepKeepsLogInv(s0, st, steps[0]);
      RunKeepsLogInv(s0, Next(st, steps[0]), steps[1..], last);
    }
  }

  // ---------- recovery of one place, and of the store ----------

  ghost function RecoverAt(log: seq<LogRecord>, x: Loc, v: Image): Image
  {
    UndoAt(log, LosersIn(log), x, RedoAt(log, CommittedIn(log), x, v))
  }

  /** Nobody whose work recovery redoes or undoes wrote the place. */
  ghost predicate Unlogged(log: seq<LogRecord>, x: Loc)
  {
    !WrittenBy(log, CommittedIn(log), x) && !WrittenBy(log, LosersIn(log), x)
  }

  lemma RecoverPlace(s0: Store, c: Store, st: State, x: Loc, v: Image)
    requires LogInv(s0, c, st)
    ensures !Unlogged(st.log, x) ==> RecoverAt(st.log, x, v) == Get(c, x)
    ensures Unlogged(st.log, x) ==> RecoverAt(st.log, x, v) == v && Get(c, x) == Get(s0, x)
  {
    var winners := CommittedIn(st.log);
    if WrittenBy(st.log, winners, x) {
      RedoForgets(st.log, winners, x, v, Get(s0, x));
    } else {
      RedoUntouched(st.log, winners, x, v);
      RedoUntouched(st.log, winners, x, Get(s0, x));
    }
  }
}
