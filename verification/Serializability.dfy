/** Every step keeps the view of the committed store, so every run is serial in commit order. */
module Serializability {
  import L = LockModel
  import opened Records
  import opened Schedules
  import opened LogRecords
  import opened TwoPhase

  // ---------- scanning ----------

  /** A scan sees the committed store and the scanner's own writes, nobody else's. */
  lemma ScanSees(c: Store, st: State, t: TxnId, tab: int)
    requires t in st.txns && Views(c, st) && Owns(st, t, tab)
    ensures Table(st.store, tab) == Table(Replay(c, st.txns[t].trace), tab)
  {
    var trace := st.txns[t].trace;
    if OwnsX(st, t, tab) {
      SameTable(st.store, Replay(c, trace), tab);
    } else {
      forall u | u in st.txns ensures !OwnsX(st, u, tab) {
        if OwnsX(st, u, tab) {
          Exclusion(st, u, t, tab);
        }
      }
      assert Free(st, tab);
      assert TraceLocked(st, t);
      ReplayKeepsTable(c, trace, tab);
      AgreeTrans(st.store, c, Replay(c, trace), tab);
      SameTable(st.store, Replay(c, trace), tab);
    }
  }

  /** Nothing is locked, stored or logged, and the transaction's replay and rollback lead where they led. */
  ghost predicate Quiet(c: Store, st: State, st': State, t: TxnId)
  {
    && t in st.txns && st'.locks == st.locks && st'.store == st.store && st'.txns.Keys == st.txns.Keys
    && (forall u :: u in st.txns && u != t ==> st'.txns[u] == st.txns[u])
    && Replay(c, st'.txns[t].trace) == Replay(c, st.txns[t].trace)
    && RollBack(st.store, st'.txns[t].writes) == RollBack(st.store, st.txns[t].writes)
  }

  lemma QuietKeepsOwned(c: Store, st: State, st': State, t: TxnId)
    requires Quiet(c, st, st', t) && OwnerView(c, st) && Undoable(c, st)
    ensures OwnerView(c, st') && Undoable(c, st')
  {
    forall u, tab | u in st'.txns && OwnsX(st', u, tab)
      ensures AgreeOn(st'.store, Replay(c, st'.txns[u].trace), tab)
      ensures AgreeOn(RollBack(st'.store, st'.txns[u].writes), c, tab)
    {
      assert OwnsX(st, u, tab);
    }
  }

  lemma QuietKeepsRest(c: Store, st: State, st': State, t: TxnId)
    requires Quiet(c, st, st', t) && Traced(st) && FreeView(c, st) && Seen(c, st)
    requires TraceLocked(st', t) && Faithful(c, st'.txns[t].trace)
    ensures Traced(st') && FreeView(c, st') && Seen(c, st')
  {
    forall u | u in st'.txns ensures TraceLocked(st', u) {
      assert TraceLocked(st, u);
    }
    forall tab | Free(st', tab) ensures Free(st, tab) {
      assert forall u :: OwnsX(st', u, tab) <==> OwnsX(st, u, tab);
    }
  }

  lemma ScanKeepsViews(c: Store, st: State, t: TxnId, tab: int)
    requires t in st.txns && Views(c, st) && Owns(st, t, tab)
    ensures Views(c, AfterScan(st, t, tab))
  {
    var st' := AfterScan(st, t, tab);
    var trace, op := st.txns[t].trace, Read(tab, Table(st.store, tab));
    ScanSees(c, st, t, tab);
    ReplaySnoc(c, trace, op);
    ScanKeepsTrace(st, t, tab);
    assert Quiet(c, st, st', t);
    QuietKeepsOwned(c, st, st', t);
    QuietKeepsRest(c, st, st', t);
  }

  lemma ScanKeepsTrace(st: State, t: TxnId, tab: int)
    requires t in st.txns && Traced(st) && Owns(st, t, tab)
    ensures TraceLocked(AfterScan(st, t, tab), t)
  {
    assert TraceLocked(st, t);
    var st' := AfterScan(st, t, tab);
    assert forall y :: Owns(st', t, y) <==> Owns(st, t, y);
    assert forall y :: OwnsX(st', t, y) <==> OwnsX(st, t, y);
  }

  // ---------- an update stopped by a duplicate key ----------

  lemma RejectKeepsViews(c: Store, st: State, t: TxnId, x: Loc)
    requires t in st.txns && x in st.store && Views(c, st) && OwnsX(st, t, x.table)
    ensures Views(c, AfterReject(st, t, x))
  {
    var st' := AfterReject(st, t, x);
    RollBackSnoc(st.store, st.txns[t].writes, UpdateTuple(x, st.store[x]));
    assert st.store[x := st.store[x]] == st.store;
    RejectKeepsTrace(st, t, x);
    assert Quiet(c, st, st', t);
    QuietKeepsOwned(c, st, st', t);
    QuietKeepsRest(c, st, st', t);
  }

  lemma RejectKeepsTrace(st: State, t: TxnId, x: Loc)
    requires t in st.txns && x in st.store && Traced(st) && OwnsX(st, t, x.table)
    ensures TraceLocked(AfterReject(st, t, x), t)
  {
    assert TraceLocked(st, t);
    var st' := AfterReject(st, t, x);
    assert forall y :: Owns(st', t, y) <==> Owns(st, t, y);
    assert forall y :: OwnsX(st', t, y) <==> OwnsX(st, t, y);
  }

  // ---------- beginning ----------

  lemma BeginKeepsViews(c: Store, st: State, t: TxnId)
    requires Views(c, st) && t !in st.locks.states
    ensures Views(c, AfterBegin(st, t))
  {
    var st' := AfterBegin(st, t);
    assert st'.locks.held == st.locks.held;
    assert forall u, tab :: OwnsX(st', u, tab) <==> OwnsX(st, u, tab);
    assert !L.Live(st.locks, t) && t !in st.txns;
    forall tab ensures !Owns(st', t, tab) {
      if Owns(st, t, tab) {
        OwnerIsLive(st, t, tab);
      }
    }
    L.StepIsSound(st.locks, L.Begin(t));
    assert TraceLocked(st', t);
    forall u | u in st'.txns && u != t ensures TraceLocked(st', u) {
      assert TraceLocked(st, u);
    }
    forall tab | Free(st', tab) ensures Free(st, tab) {
      assert forall u :: u in st.txns ==> u in st'.txns;
    }
  }

  // ---------- locking a table ----------

  ghost predicate OnlyGrows(st: State, st': State, t: TxnId, tab: int)
  {
    && (forall u, y :: u != t ==> (Owns(st', u, y) <==> Owns(st, u, y)) && (OwnsX(st', u, y) <==> OwnsX(st, u, y)))
    && (forall y :: Owns(st, t, y) ==> Owns(st', t, y))
    && (forall y :: OwnsX(st, t, y) ==> OwnsX(st', t, y))
    && (forall y :: OwnsX(st', t, y) && !OwnsX(st, t, y) ==> y == tab)
  }

  lemma LockFacts(st: State, t: TxnId, tab: int, exclusive: bool)
    requires L.Live(st.locks, t) && L.PlainHolds(st.locks.held)
    ensures var st' := AfterLock(st, t, tab, exclusive);
      && OnlyGrows(st, st', t, tab)
      && L.PlainHolds(st'.locks.held)
      && (forall u :: L.Live(st'.locks, u) <==> L.Live(st.locks, u))
  {}

  lemma NewOwnerIsAlone(st: State, st': State, t: TxnId, tab: int)
    requires OnlyGrows(st, st', t, tab) && L.Harmony(st'.locks.held)
    requires OwnsX(st', t, tab) && !OwnsX(st, t, tab)
    ensures Free(st, tab)
  {
    forall u | u in st.txns ensures !OwnsX(st, u, tab) {
      if u != t && OwnsX(st, u, tab) {
        Exclusion(st', t, u, tab);
      }
    }
  }

  lemma LockKeepsTraced(st: State, st': State, t: TxnId, tab: int)
    requires Traced(st) && OnlyGrows(st, st', t, tab) && st'.txns == st.txns
    ensures Traced(st')
  {
    forall u | u in st'.txns ensures TraceLocked(st', u) {
      assert TraceLocked(st, u);
    }
  }

  lemma NewlyOwned(c: Store, st: State, st': State, t: TxnId, tab: int)
    requires t in st.txns && OnlyGrows(st, st', t, tab) && L.Harmony(st'.locks.held)
    requires Traced(st) && FreeView(c, st)
    requires OwnsX(st', t, tab) && !OwnsX(st, t, tab)
    ensures AgreeOn(st.store, Replay(c, st.txns[t].trace), tab)
    ensures AgreeOn(RollBack(st.store, st.txns[t].writes), c, tab)
  {
    NewOwnerIsAlone(st, st', t, tab);
    var trace, ws := st.txns[t].trace, st.txns[t].writes;
    assert TraceLocked(st, t);
    ReplayKeepsTable(c, trace, tab);
    AgreeTrans(st.store, c, Replay(c, trace), tab);
    RollBackElsewhere(st.store, ws, tab);
    AgreeTrans(RollBack(st.store, ws), st.store, c, tab);
  }

  lemma LockKeepsViews(c: Store, st: State, t: TxnId, tab: int, exclusive: bool)
    requires Views(c, st) && t in st.txns && L.Live(st.locks, t)
    ensures Views(c, AfterLock(st, t, tab, exclusive))
  {
    var st' := AfterLock(st, t, tab, exclusive);
    LockFacts(st, t, tab, exclusive);
    L.StepIsSound(st.locks, L.Lock(t, L.TableItem(tab), ModeOf(exclusive)));
    LockKeepsTraced(st, st', t, tab);
    forall u, y | u in st'.txns && OwnsX(st', u, y)
      ensures AgreeOn(st'.store, Replay(c, st'.txns[u].trace), y)
      ensures AgreeOn(RollBack(st'.store, st'.txns[u].writes), c, y)
    {
      if !OwnsX(st, u, y) {
        NewlyOwned(c, st, st', t, tab);
      }
    }
    assert FreeView(c, st') by {
      forall y | Free(st', y) ensures AgreeOn(st'.store, c, y) {
        assert forall u :: OwnsX(st, u, y) ==> OwnsX(st', u, y);
        assert Free(st, y);
      }
    }
  }

  // ---------- finishing: what both commit and abort do to the locks ----------

  ghost predicate LetsGo(st: State, st': State, t: TxnId)
  {
    && t in st.txns && st'.txns == st.txns - {t}
    && (forall u, y :: Owns(st', u, y) <==> u != t && Owns(st, u, y))
    && (forall u, y :: OwnsX(st', u, y) <==> u != t && OwnsX(st, u, y))
  }

  lemma FinishFacts(st: State, t: TxnId, commit: bool)
    requires Locked(st) && t in st.txns
    ensures var st' := if commit then AfterCommit(st, t) else AfterAbort(st, t);
      LetsGo(st, st', t) && Locked(st')
  {
    L.StepIsSound(st.locks, L.Finish(t, commit));
  }

  lemma FinishKeepsTraced(st: State, st': State, t: TxnId)
    requires Traced(st) && LetsGo(st, st', t)
    ensures Traced(st')
  {
    forall u | u in st'.txns ensures TraceLocked(st', u) {
      assert TraceLocked(st, u);
    }
  }

  /** After `t` has gone, a free table was free before or was held by `t`. */
  lemma FreedTables(st: State, st': State, t: TxnId, tab: int)
    requires LetsGo(st, st', t) && Free(st', tab) && !OwnsX(st, t, tab)
    ensures Free(st, tab)
  {
    forall u | u in st.txns ensures !OwnsX(st, u, tab) {
      assert OwnsX(st', u, tab) <==> u != t && OwnsX(st, u, tab);
    }
  }

  // ---------- commit ----------

  /** Committing changes no table that another transaction is using. */
  lemma CommitLeaves(c: Store, st: State, t: TxnId, tab: int)
    requires t in st.txns && Traced(st) && !OwnsX(st, t, tab)
    ensures AgreeOn(c, Replay(c, st.txns[t].trace), tab)
  {
    assert TraceLocked(st, t);
    ReplayKeepsTable(c, st.txns[t].trace, tab);
  }

  lemma CommitKeepsSeen(c: Store, st: State, st': State, t: TxnId)
    requires Locked(st) && Traced(st) && Seen(c, st) && LetsGo(st, st', t)
    ensures Seen(Replay(c, st.txns[t].trace), st')
  {
    var c' := Replay(c, st.txns[t].trace);
    forall u | u in st'.txns ensures Faithful(c', st'.txns[u].trace) {
      var trace := st.txns[u].trace;
      assert TraceLocked(st, u);
      forall i | 0 <= i < |trace| ensures AgreeOn(c, c', trace[i].Tab()) {
        var tab := trace[i].Tab();
        assert Owns(st, u, tab);
        if OwnsX(st, t, tab) {
          Exclusion(st, t, u, tab);
        }
        CommitLeaves(c, st, t, tab);
      }
      FaithfulElsewhere(c, c', trace);
    }
  }

  lemma CommitKeepsOwned(c: Store, st: State, st': State, t: TxnId)
    requires Locked(st) && Traced(st) && OwnerView(c, st) && Undoable(c, st) && LetsGo(st, st', t)
    requires st'.store == st.store
    ensures OwnerView(Replay(c, st.txns[t].trace), st') && Undoable(Replay(c, st.txns[t].trace), st')
  {
    var c' := Replay(c, st.txns[t].trace);
    forall u, tab | u in st'.txns && OwnsX(st', u, tab)
      ensures AgreeOn(st'.store, Replay(c', st'.txns[u].trace), tab)
      ensures AgreeOn(RollBack(st'.store, st'.txns[u].writes), c', tab)
    {
      var trace, ws := st.txns[u].trace, st.txns[u].writes;
      assert u != t && OwnsX(st, u, tab);
      if OwnsX(st, t, tab) {
        Exclusion(st, t, u, tab);
      }
      CommitLeaves(c, st, t, tab);
      ReplayAgrees(c, c', trace, tab);
      AgreeTrans(st.store, Replay(c, trace), Replay(c', trace), tab);
      AgreeTrans(RollBack(st.store, ws), c, c', tab);
    }
  }

  lemma CommitKeepsFreeView(c: Store, st: State, st': State, t: TxnId)
    requires Traced(st) && OwnerView(c, st) && FreeView(c, st) && LetsGo(st, st', t)
    requires st'.store == st.store
    ensures FreeView(Replay(c, st.txns[t].trace), st')
  {
    var c' := Replay(c, st.txns[t].trace);
    forall tab | Free(st', tab) ensures AgreeOn(st'.store, c', tab) {
      if !OwnsX(st, t, tab) {
        FreedTables(st, st', t, tab);
        CommitLeaves(c, st, t, tab);
        AgreeTrans(st.store, c, c', tab);
      }
    }
  }

  lemma CommitKeepsViews(c: Store, st: State, t: TxnId)
    requires Views(c, st) && t in st.txns && L.Live(st.locks, t)
    ensures Views(Replay(c, st.txns[t].trace), AfterCommit(st, t))
  {
    var st' := AfterCommit(st, t);
    FinishFacts(st, t, true);
    FinishKeepsTraced(st, st', t);
    CommitKeepsSeen(c, st, st', t);
    CommitKeepsOwned(c, st, st', t);
    CommitKeepsFreeView(c, st, st', t);
  }

  // ---------- abort ----------

  /** Rolling back touches only tables the transaction holds exclusively. */
  lemma AbortLeaves(st: State, t: TxnId, tab: int)
    requires t in st.txns && Traced(st) && !OwnsX(st, t, tab)
    ensures AgreeOn(st.store, RollBack(st.store, st.txns[t].writes), tab)
  {
    assert TraceLocked(st, t);
    RollBackElsewhere(st.store, st.txns[t].writes, tab);
  }

  lemma AbortKeepsOwned(c: Store, st: State, st': State, t: TxnId)
    requires Locked(st) && Traced(st) && OwnerView(c, st) && Undoable(c, st) && LetsGo(st, st', t)
    requires st'.store == RollBack(st.store, st.txns[t].writes)
    ensures OwnerView(c, st') && Undoable(c, st')
  {
    forall u, tab | u in st'.txns && OwnsX(st', u, tab)
      ensures AgreeOn(st'.store, Replay(c, st'.txns[u].trace), tab)
      ensures AgreeOn(RollBack(st'.store, st'.txns[u].writes), c, tab)
    {
      var trace, ws := st.txns[u].trace, st.txns[u].writes;
      assert u != t && OwnsX(st, u, tab);
      if OwnsX(st, t, tab) {
        Exclusion(st, t, u, tab);
      }
      AbortLeaves(st, t, tab);
      AgreeTrans(st'.store, st.store, Replay(c, trace), tab);
      RollBackAgrees(st'.store, st.store, ws, tab);
      AgreeTrans(RollBack(st'.store, ws), RollBack(st.store, ws), c, tab);
    }
  }

  lemma AbortKeepsFreeView(c: Store, st: State, st': State, t: TxnId)
    requires Traced(st) && FreeView(c, st) && Undoable(c, st) && LetsGo(st, st', t)
    requires st'.store == RollBack(st.store, st.txns[t].writes)
    ensures FreeView(c, st')
  {
    forall tab | Free(st', tab) ensures AgreeOn(st'.store, c, tab) {
      if !OwnsX(st, t, tab) {
        FreedTables(st, st', t, tab);
        AbortLeaves(st, t, tab);
        AgreeTrans(st'.store, st.store, c, tab);
      }
    }
  }

  lemma AbortKeepsViews(c: Store, st: State, t: TxnId)
    requires Views(c, st) && t in st.txns && L.Live(st.locks, t)
    ensures Views(c, AfterAbort(st, t))
  {
    var st' := AfterAbort(st, t);
    FinishFacts(st, t, false);
    FinishKeepsTraced(st, st', t);
    AbortKeepsOwned(c, st, st', t);
    AbortKeepsFreeView(c, st, st', t);
  }

  // ---------- every run ----------

  /** The write record of each statement takes back exactly that statement. */
  lemma WriteRecordsUndo(s: Store, x: Loc, rec: Rec)
    ensures x !in s ==> UndoOne(Put(s, x, Present(rec)), InsertTuple(x)) == s
    ensures x in s ==> UndoOne(Put(s, x, Absent), DeleteTuple(x, s[x])) == s
    ensures x in s ==> UndoOne(Put(s, x, Present(rec)), UpdateTuple(x, s[x])) == s
  {}

  lemma WriteStepKeepsViews(c: Store, st: State, s: Step)
    requires Views(c, st) && Enabled(st, s) && (s.Insert? || s.Delete? || s.Update?)
    ensures Views(c, Next(st, s))
  {
    var x := s.loc;
    match s
    case Insert(t, _, rec) =>
      WriteRecordsUndo(st.store, x, rec);
      WriteKeepsViews(c, st, t, x, Present(rec), LogInsert(t, x, rec), InsertTuple(x));
    case Delete(t, _) =>
      WriteRecordsUndo(st.store, x, []);
      var was := st.store[x];
      WriteKeepsViews(c, st, t, x, Absent, LogDelete(t, x, was), DeleteTuple(x, was));
    case Update(t, _, rec) =>
      WriteRecordsUndo(st.store, x, rec);
      var was := st.store[x];
      WriteKeepsViews(c, st, t, x, Present(rec), LogUpdate(t, x, was, rec), UpdateTuple(x, was));
  }

  lemma StepKeepsInv(s0: Store, st: State, s: Step)
    requires Inv(s0, st) && Enabled(st, s)
    ensures Inv(s0, Next(st, s))
  {
    var c := SerialRun(s0, st.committed);
    match s
    case Begin(t) => BeginKeepsViews(c, st, t);
    case Lock(t, tab, exclusive) => LockKeepsViews(c, st, t, tab, exclusive);
    case Scan(t, tab) => ScanKeepsViews(c, st, t, tab);
    case RejectedUpdate(t, x) => RejectKeepsViews(c, st, t, x);
    case Commit(t) =>
      CommitKeepsViews(c, st, t);
      SerialSnoc(s0, st.committed, Done(t, st.txns[t].trace));
    case Abort(t) => AbortKeepsViews(c, st, t);
    case _ => WriteStepKeepsViews(c, st, s);
  }

  lemma InitialInv(s0: Store)
    ensures Inv(s0, Initial(s0))
  {}

  lemma {:induction false} RunKeepsInv(s0: Store, st: State, steps: seq<Step>, last: State)
    requires Inv(s0, st) && Run(st, steps, last)
    ensures Inv(s0, last)
    decreases |steps|
  {
    if steps != [] {
      StepKeepsInv(s0, st, steps[0]);
      RunKeepsInv(s0, Next(st, steps[0]), steps[1..], last);
    }
  }

  /** The committed transactions did exactly what they would have done one at a time in commit order,
      every scan returning the same rows, and what they leave is the store wherever nobody is writing. */
  lemma Serializable(s0: Store, steps: seq<Step>, last: State)
    requires Run(Initial(s0), steps, last)
    ensures SerialFaithful(s0, last.committed)
    ensures forall tab :: Free(last, tab) ==> AgreeOn(last.store, SerialRun(s0, last.committed), tab)
  {
    InitialInv(s0);
    RunKeepsInv(s0, Initial(s0), steps, last);
  }

  /** When everything has finished the store is that of the serial run. */
  lemma QuiescentStoreIsSerial(s0: Store, steps: seq<Step>, last: State)
    requires Run(Initial(s0), steps, last) && last.txns == map[]
    ensures last.store == SerialRun(s0, last.committed)
  {
    Serializable(s0, steps, last);
    forall x ensures Get(last.store, x) == Get(SerialRun(s0, last.committed), x) {
      assert Free(last, x.table);
    }
    SameStore(last.store, SerialRun(s0, last.committed));
  }

  /** No scan ever sees a row that is neither committed nor the scanner's own. */
  lemma NoDirtyReads(s0: Store, steps: seq<Step>, last: State, t: TxnId, tab: int)
    requires Run(Initial(s0), steps, last) && Enabled(last, Scan(t, tab))
    ensures Table(last.store, tab) == Table(Replay(SerialRun(s0, last.committed), last.txns[t].trace), tab)
  {
    InitialInv(s0);
    RunKeepsInv(s0, Initial(s0), steps, last);
    ScanSees(SerialRun(s0, last.committed), last, t, tab);
  }

  /** Rolling one transaction back leaves the tables it wrote as the committed transactions made them. */
  lemma AbortRestores(s0: Store, steps: seq<Step>, last: State, t: TxnId, tab: int)
    requires Run(Initial(s0), steps, last) && Enabled(last, Abort(t)) && OwnsX(last, t, tab)
    ensures AgreeOn(Next(last, Abort(t)).store, SerialRun(s0, last.committed), tab)
  {
    InitialInv(s0);
    RunKeepsInv(s0, Initial(s0), steps, last);
  }
}
