/** Transactions under strict two-phase locking with no waiting, as one state machine. */
module TwoPhase {
  import L = LockModel
  import opened Records
  import opened Schedules
  import opened LogRecords

  type TxnId = int

  /** What a live transaction has done, and the write set that would take it back. */
  datatype Txn = Txn(trace: seq<Op>, writes: seq<WriteRecord>)

  datatype Done = Done(txn: TxnId, trace: seq<Op>)

  datatype Event =
    | Access(txn: TxnId, table: int, write: bool)
    | End(txn: TxnId, committed: bool)

  datatype State = State(
    store: Store,
    locks: L.World,
    txns: map<TxnId, Txn>,
    log: seq<LogRecord>,
    committed: seq<Done>,
    history: seq<Event>)

  datatype Step =
    | Begin(txn: TxnId)
    | Lock(txn: TxnId, table: int, exclusive: bool)
    | Scan(txn: TxnId, table: int)
    | Insert(txn: TxnId, loc: Loc, rec: Rec)
    | Delete(txn: TxnId, loc: Loc)
    | Update(txn: TxnId, loc: Loc, rec: Rec)
    | RejectedUpdate(txn: TxnId, loc: Loc)
    | Commit(txn: TxnId)
    | Abort(txn: TxnId)

  function Initial(s0: Store): State
  {
    State(s0, L.World(map[], map[]), map[], [], [], [])
  }

  predicate Owns(st: State, t: TxnId, tab: int)
  {
    L.Hold(L.TableItem(tab), t) in st.locks.held
  }

  predicate OwnsX(st: State, t: TxnId, tab: int)
  {
    Owns(st, t, tab) && st.locks.held[L.Hold(L.TableItem(tab), t)].Exclusive?
  }

  /** Scans run under S or X, row writes under X; a row is inserted where none is, and changed where one is. */
  predicate Enabled(st: State, s: Step)
  {
    if s.Begin? then 0 <= s.txn && s.txn !in st.locks.states
    else
      && s.txn in st.txns && L.Live(st.locks, s.txn)
      && (s.Scan? ==> Owns(st, s.txn, s.table))
      && (s.Insert? ==> OwnsX(st, s.txn, s.loc.table) && s.loc !in st.store)
      && (s.Delete? || s.Update? || s.RejectedUpdate? ==> OwnsX(st, s.txn, s.loc.table) && s.loc in st.store)
  }

  /** A begin needs a new number; everything else a transaction under way; a scan any lock on the table, a row write an
      exclusive one, and a place that is free or taken as the write needs it. */
  lemma EnabledMeans(st: State, s: Step)
    ensures s.Begin? ==> (Enabled(st, s) <==> 0 <= s.txn && s.txn !in st.locks.states)
    ensures !s.Begin? ==> (Enabled(st, s) <==>
      && s.txn in st.txns && s.txn in st.locks.states
      && (st.locks.states[s.txn] == L.Growing || st.locks.states[s.txn] == L.Shrinking)
      && (s.Scan? ==> L.Hold(L.TableItem(s.table), s.txn) in st.locks.held)
      && (s.Insert? || s.Delete? || s.Update? || s.RejectedUpdate? ==>
        var h := L.Hold(L.TableItem(s.loc.table), s.txn);
        h in st.locks.held && st.locks.held[h] == L.Exclusive && (s.loc in st.store <==> !s.Insert?)))
  {}

  function ModeOf(exclusive: bool): L.LockMode
  {
    if exclusive then L.Exclusive else L.Shared
  }

  /** One row write: the row, its log record, its write record and its place in the trace, together. */
  function AfterWrite(st: State, t: TxnId, x: Loc, v: Image, r: LogRecord, w: WriteRecord): State
    requires t in st.txns
  {
    var txn := st.txns[t];
    st.(store := Put(st.store, x, v),
        txns := st.txns[t := Txn(txn.trace + [Write(x, Get(st.store, x), v)], txn.writes + [w])],
        log := st.log + [r],
        history := st.history + [Access(t, x.table, true)])
  }

  function AfterScan(st: State, t: TxnId, tab: int): State
    requires t in st.txns
  {
    var txn := st.txns[t];
    st.(txns := st.txns[t := txn.(trace := txn.trace + [Read(tab, Table(st.store, tab))])],
        history := st.history + [Access(t, tab, false)])
  }

  /** An update stopped by a duplicate key has already recorded the row it read. */
  function AfterReject(st: State, t: TxnId, x: Loc): State
    requires t in st.txns && x in st.store
  {
    var txn := st.txns[t];
    st.(txns := st.txns[t := txn.(writes := txn.writes + [UpdateTuple(x, st.store[x])])])
  }

  ghost function AfterCommit(st: State, t: TxnId): State
    requires t in st.txns && L.Live(st.locks, t)
  {
    st.(locks := L.Next(st.locks, L.Finish(t, true)),
        txns := st.txns - {t},
        log := st.log + [LogCommit(t)],
        committed := st.committed + [Done(t, st.txns[t].trace)],
        history := st.history + [End(t, true)])
  }

  ghost function AfterAbort(st: State, t: TxnId): State
    requires t in st.txns && L.Live(st.locks, t)
  {
    st.(store := RollBack(st.store, st.txns[t].writes),
        locks := L.Next(st.locks, L.Finish(t, false)),
        txns := st.txns - {t},
        log := st.log + [LogAbort(t)],
        history := st.history + [End(t, false)])
  }

  ghost function AfterBegin(st: State, t: TxnId): State
    requires t !in st.locks.states
  {
    st.(locks := L.Next(st.locks, L.Begin(t)), txns := st.txns[t := Txn([], [])], log := st.log + [LogBegin(t)])
  }

  ghost function AfterLock(st: State, t: TxnId, tab: int, exclusive: bool): State
    requires L.Live(st.locks, t)
  {
    st.(locks := L.Next(st.locks, L.Lock(t, L.TableItem(tab), ModeOf(exclusive))))
  }

  ghost function Next(st: State, s: Step): State
    requires Enabled(st, s)
  {
    match s
    case Begin(t) => AfterBegin(st, t)
    case Lock(t, tab, exclusive) => AfterLock(st, t, tab, exclusive)
    case Scan(t, tab) => AfterScan(st, t, tab)
    case Insert(t, x, rec) => AfterWrite(st, t, x, Present(rec), LogInsert(t, x, rec), InsertTuple(x))
    case Delete(t, x) => AfterWrite(st, t, x, Absent, LogDelete(t, x, st.store[x]), DeleteTuple(x, st.store[x]))
    case Update(t, x, rec) =>
      AfterWrite(st, t, x, Present(rec), LogUpdate(t, x, st.store[x], rec), UpdateTuple(x, st.store[x]))
    case RejectedUpdate(t, x) => AfterReject(st, t, x)
    case Commit(t) => AfterCommit(st, t)
    case Abort(t) => AfterAbort(st, t)
  }

  /** What a step does to the rows: an insert or update puts its record in its place, a delete empties it, a rollback
      takes the write set back, and nothing else changes a row. */
  lemma StepMeans(st: State, s: Step)
    requires Enabled(st, s)
    ensures var next := Next(st, s);
      && (s.Insert? || s.Update? ==>
        s.loc in next.store && next.store[s.loc] == s.rec && next.store - {s.loc} == st.store - {s.loc})
      && (s.Delete? ==> next.store == st.store - {s.loc})
      && (s.Abort? ==> next.store == RollBack(st.store, st.txns[s.txn].writes))
      && (!s.Insert? && !s.Update? && !s.Delete? && !s.Abort? ==> next.store == st.store)
  {
    if s.Insert? || s.Update? {
      assert Put(st.store, s.loc, Present(s.rec)) == st.store[s.loc := s.rec];
    }
  }

  /** And what it leaves behind: the log record with the images, the write record that takes it back, the trace. */
  lemma StepRecords(st: State, s: Step)
    requires Enabled(st, s)
    ensures var next := Next(st, s);
      && (s.Insert? ==>
        && next.log == st.log + [LogInsert(s.txn, s.loc, s.rec)] && s.txn in next.txns
        && next.txns[s.txn].writes == st.txns[s.txn].writes + [InsertTuple(s.loc)])
      && (s.Update? ==>
        && next.log == st.log + [LogUpdate(s.txn, s.loc, st.store[s.loc], s.rec)] && s.txn in next.txns
        && next.txns[s.txn].writes == st.txns[s.txn].writes + [UpdateTuple(s.loc, st.store[s.loc])])
      && (s.Delete? ==>
        && next.log == st.log + [LogDelete(s.txn, s.loc, st.store[s.loc])] && s.txn in next.txns
        && next.txns[s.txn].writes == st.txns[s.txn].writes + [DeleteTuple(s.loc, st.store[s.loc])])
      && (s.Begin? ==> next.log == st.log + [LogBegin(s.txn)] && next.txns == st.txns[s.txn := Txn([], [])])
      && (s.Commit? ==>
        && next.log == st.log + [LogCommit(s.txn)] && next.txns == st.txns - {s.txn}
        && next.committed == st.committed + [Done(s.txn, st.txns[s.txn].trace)])
      && (s.Abort? ==> next.log == st.log + [LogAbort(s.txn)] && next.txns == st.txns - {s.txn})
      && (s.Scan? ==>
        && s.txn in next.txns
        && next.txns[s.txn].trace == st.txns[s.txn].trace + [Read(s.table, Table(st.store, s.table))])
      && (s.Lock? || s.Scan? || s.RejectedUpdate? ==> next.log == st.log)
      && (!s.Commit? ==> next.committed == st.committed)
  {}

  /** What it does to locks and history: a request goes to the lock manager, finishing gives up exactly the
      transaction's holds and marks it finished, and every access and every end is noted. */
  lemma StepLocks(st: State, s: Step)
    requires Enabled(st, s)
    ensures var next := Next(st, s);
      && (s.Lock? ==>
        && next.locks.states == st.locks.states
        && next.locks.held == L.AfterLock(st.locks.held, st.locks.states[s.txn], s.txn, L.TableItem(s.table),
                                          if s.exclusive then L.Exclusive else L.Shared))
      && (s.Begin? ==> next.locks.held == st.locks.held && next.locks.states == st.locks.states[s.txn := L.Growing])
      && (s.Commit? || s.Abort? ==>
        && next.locks.states == st.locks.states[s.txn := if s.Commit? then L.Committed else L.Aborted]
        && (forall h :: h in next.locks.held <==> h in st.locks.held && h.txn != s.txn)
        && (forall h :: h in next.locks.held ==> next.locks.held[h] == st.locks.held[h]))
      && (s.Scan? || s.Insert? || s.Delete? || s.Update? || s.RejectedUpdate? ==> next.locks == st.locks)
      && next.history == st.history
        + (if s.Scan? then [Access(s.txn, s.table, false)]
           else if s.Insert? || s.Delete? || s.Update? then [Access(s.txn, s.loc.table, true)]
           else if s.Commit? || s.Abort? then [End(s.txn, s.Commit?)] else [])
  {}

  ghost predicate Run(st: State, steps: seq<Step>, last: State)
    decreases |steps|
  {
    if steps == [] then last == st else Enabled(st, steps[0]) && Run(Next(st, steps[0]), steps[1..], last)
  }

  // ---------- running the committed transactions one after another ----------

  function SerialRun(s0: Store, ds: seq<Done>): Store
    decreases |ds|
  {
    if ds == [] then s0 else Replay(SerialRun(s0, ds[..|ds| - 1]), ds[|ds| - 1].trace)
  }

  ghost predicate SerialFaithful(s0: Store, ds: seq<Done>)
    decreases |ds|
  {
    ds == [] || (SerialFaithful(s0, ds[..|ds| - 1]) && Faithful(SerialRun(s0, ds[..|ds| - 1]), ds[|ds| - 1].trace))
  }

  /** Transaction `k`, run after those before it, sees what it saw. */
  ghost predicate SeesSame(s0: Store, ds: seq<Done>, k: nat)
    requires k < |ds|
  {
    Faithful(SerialRun(s0, ds[..k]), ds[k].trace)
  }

  lemma SeesSameInPrefix(s0: Store, ds: seq<Done>, n: nat, k: nat)
    requires k < n <= |ds|
    ensures SeesSame(s0, ds[..n], k) <==> SeesSame(s0, ds, k)
  {
    assert ds[..n][..k] == ds[..k];
  }

  /** A serial run is faithful exactly if every transaction sees what it saw. */
  lemma {:induction false} SerialMeans(s0: Store, ds: seq<Done>)
    ensures SerialFaithful(s0, ds) <==> forall k :: 0 <= k < |ds| ==> SeesSame(s0, ds, k)
    decreases |ds|
  {
    if ds != [] {
      var n := |ds| - 1;
      var front := ds[..n];
      SerialMeans(s0, front);
      forall k | 0 <= k < n ensures SeesSame(s0, front, k) <==> SeesSame(s0, ds, k) {
        SeesSameInPrefix(s0, ds, n, k);
      }
      assert (forall k :: 0 <= k < |ds| ==> SeesSame(s0, ds, k)) <==>
        (forall k :: 0 <= k < |front| ==> SeesSame(s0, front, k)) && SeesSame(s0, ds, n);
    }
  }

  lemma SerialSnoc(s0: Store, ds: seq<Done>, d: Done)
    ensures SerialRun(s0, ds + [d]) == Replay(SerialRun(s0, ds), d.trace)
    ensures SerialFaithful(s0, ds + [d]) <==> SerialFaithful(s0, ds) && Faithful(SerialRun(s0, ds), d.trace)
  {
    assert (ds + [d])[..|ds + [d]| - 1] == ds;
  }

  // ---------- the invariant: `c` is the store the committed transactions alone would leave ----------

  ghost predicate Locked(st: State)
  {
    && L.Sound(st.locks) && L.PlainHolds(st.locks.held)
    && (forall t :: t in st.txns <==> L.Live(st.locks, t))
  }

  ghost predicate TraceLocked(st: State, t: TxnId)
    requires t in st.txns
  {
    && (forall i :: 0 <= i < |st.txns[t].trace| ==> Owns(st, t, st.txns[t].trace[i].Tab()))
    && (forall i :: 0 <= i < |st.txns[t].trace| && st.txns[t].trace[i].Write? ==>
      OwnsX(st, t, st.txns[t].trace[i].loc.table))
    && (forall i :: 0 <= i < |st.txns[t].writes| ==> OwnsX(st, t, st.txns[t].writes[i].loc.table))
  }

  ghost predicate Traced(st: State)
  {
    forall t :: t in st.txns ==> TraceLocked(st, t)
  }

  ghost predicate Seen(c: Store, st: State)
  {
    forall t :: t in st.txns ==> Faithful(c, st.txns[t].trace)
  }

  /** On a table it holds exclusively a transaction sees its own writes on top of the committed store. */
  ghost predicate OwnerView(c: Store, st: State)
  {
    forall t, tab :: t in st.txns && OwnsX(st, t, tab) ==> AgreeOn(st.store, Replay(c, st.txns[t].trace), tab)
  }

  ghost predicate Free(st: State, tab: int)
  {
    forall t :: t in st.txns ==> !OwnsX(st, t, tab)
  }

  ghost predicate FreeView(c: Store, st: State)
  {
    forall tab :: Free(st, tab) ==> AgreeOn(st.store, c, tab)
  }

  ghost predicate Undoable(c: Store, st: State)
  {
    forall t, tab :: t in st.txns && OwnsX(st, t, tab) ==> AgreeOn(RollBack(st.store, st.txns[t].writes), c, tab)
  }

  ghost predicate Views(c: Store, st: State)
  {
    Locked(st) && Traced(st) && Seen(c, st) && OwnerView(c, st) && FreeView(c, st) && Undoable(c, st)
  }

  ghost predicate Inv(s0: Store, st: State)
  {
    SerialFaithful(s0, st.committed) && Views(SerialRun(s0, st.committed), st)
  }

  // ---------- locks exclude ----------

  lemma Exclusion(st: State, t: TxnId, u: TxnId, tab: int)
    requires L.Harmony(st.locks.held) && OwnsX(st, t, tab) && Owns(st, u, tab)
    ensures t == u
  {
    var h, k := L.Hold(L.TableItem(tab), t), L.Hold(L.TableItem(tab), u);
    assert h in st.locks.held && k in st.locks.held && h.item == k.item;
    assert !L.Compatible(st.locks.held[h], st.locks.held[k]);
  }

  lemma OwnerIsLive(st: State, t: TxnId, tab: int)
    requires Locked(st) && Owns(st, t, tab)
    ensures t in st.txns
  {
    assert L.Live(st.locks, L.Hold(L.TableItem(tab), t).txn);
  }

  // ---------- a row write ----------

  lemma WriteKeepsTraced(st: State, t: TxnId, x: Loc, v: Image, r: LogRecord, w: WriteRecord)
    requires t in st.txns && Traced(st) && OwnsX(st, t, x.table) && w.loc == x
    ensures Traced(AfterWrite(st, t, x, v, r, w))
  {
    var st' := AfterWrite(st, t, x, v, r, w);
    assert TraceLocked(st, t);
    assert st'.locks == st.locks;
    assert TraceLocked(st', t);
    forall u | u in st'.txns && u != t ensures TraceLocked(st', u) {
      assert TraceLocked(st, u);
    }
  }

  lemma WriteKeepsSeen(c: Store, st: State, t: TxnId, x: Loc, v: Image, r: LogRecord, w: WriteRecord)
    requires t in st.txns && Seen(c, st) && OwnerView(c, st) && OwnsX(st, t, x.table)
    ensures Seen(c, AfterWrite(st, t, x, v, r, w))
  {
    var trace := st.txns[t].trace;
    assert AgreeOn(st.store, Replay(c, trace), x.table);
    ReplaySnoc(c, trace, Write(x, Get(st.store, x), v));
  }

  lemma WriteKeepsOwnerView(c: Store, st: State, t: TxnId, x: Loc, v: Image, r: LogRecord, w: WriteRecord)
    requires t in st.txns && L.Harmony(st.locks.held) && OwnerView(c, st) && OwnsX(st, t, x.table)
    ensures OwnerView(c, AfterWrite(st, t, x, v, r, w))
  {
    var st' := AfterWrite(st, t, x, v, r, w);
    forall u, tab | u in st'.txns && OwnsX(st', u, tab)
      ensures AgreeOn(st'.store, Replay(c, st'.txns[u].trace), tab)
    {
      assert OwnsX(st, u, tab);
      var trace := st.txns[u].trace;
      if u == t {
        ReplaySnoc(c, trace, Write(x, Get(st.store, x), v));
        PutBoth(st.store, Replay(c, trace), x, v, tab);
      } else {
        OthersElsewhere(st, t, u, x, tab);
        PutElsewhere(st.store, x, v, tab);
        AgreeTrans(st'.store, st.store, Replay(c, trace), tab);
      }
    }
  }

  lemma OthersElsewhere(st: State, t: TxnId, u: TxnId, x: Loc, tab: int)
    requires L.Harmony(st.locks.held) && OwnsX(st, t, x.table) && OwnsX(st, u, tab) && t != u
    ensures x.table != tab
  {
    if x.table == tab {
      Exclusion(st, t, u, tab);
    }
  }

  lemma WriteKeepsFreeView(c: Store, st: State, t: TxnId, x: Loc, v: Image, r: LogRecord, w: WriteRecord)
    requires t in st.txns && FreeView(c, st) && OwnsX(st, t, x.table)
    ensures FreeView(c, AfterWrite(st, t, x, v, r, w))
  {
    var st' := AfterWrite(st, t, x, v, r, w);
    forall tab | Free(st', tab) ensures AgreeOn(st'.store, c, tab) {
      assert forall u :: OwnsX(st', u, tab) <==> OwnsX(st, u, tab);
      assert Free(st, tab);
      assert x.table != tab;
      PutElsewhere(st.store, x, v, tab);
      AgreeTrans(st'.store, st.store, c, tab);
    }
  }

  lemma WriteKeepsUndoable(c: Store, st: State, t: TxnId, x: Loc, v: Image, r: LogRecord, w: WriteRecord)
    requires t in st.txns && L.Harmony(st.locks.held) && Undoable(c, st) && OwnsX(st, t, x.table)
    requires UndoOne(Put(st.store, x, v), w) == st.store
    ensures Undoable(c, AfterWrite(st, t, x, v, r, w))
  {
    var st' := AfterWrite(st, t, x, v, r, w);
    forall u, tab | u in st'.txns && OwnsX(st', u, tab)
      ensures AgreeOn(RollBack(st'.store, st'.txns[u].writes), c, tab)
    {
      assert OwnsX(st, u, tab);
      if u == t {
        RollBackSnoc(st'.store, st.txns[u].writes, w);
      } else {
        OthersElsewhere(st, t, u, x, tab);
        PutElsewhere(st.store, x, v, tab);
        var ws := st.txns[u].writes;
        RollBackAgrees(st'.store, st.store, ws, tab);
        AgreeTrans(RollBack(st'.store, ws), RollBack(st.store, ws), c, tab);
      }
    }
  }

  lemma WriteKeepsViews(c: Store, st: State, t: TxnId, x: Loc, v: Image, r: LogRecord, w: WriteRecord)
    requires t in st.txns && Views(c, st) && OwnsX(st, t, x.table) && w.loc == x
    requires UndoOne(Put(st.store, x, v), w) == st.store
    ensures Views(c, AfterWrite(st, t, x, v, r, w))
  {
    WriteKeepsTraced(st, t, x, v, r, w);
    WriteKeepsSeen(c, st, t, x, v, r, w);
    WriteKeepsOwnerView(c, st, t, x, v, r, w);
    WriteKeepsFreeView(c, st, t, x, v, r, w);
    WriteKeepsUndoable(c, st, t, x, v, r, w);
  }
}
