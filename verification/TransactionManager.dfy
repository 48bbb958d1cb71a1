/** Beginning, committing and rolling back a transaction, with its locks, its log records and its write set. */
module TransactionManager {
  import opened LockModel
  import K = LockManager
  import opened LogFormat
  import G = LogManager
  import opened Tables
  import opened LogChain
  import E = TableEngine

  class Manager {
    const locks: K.Manager
    const engine: E.Engine
    var txnMap: map<TxnId, K.Transaction>
    var nextTxnId: int
    var nextTimestamp: int

    constructor (locks: K.Manager, engine: E.Engine)
      ensures this.locks == locks && this.engine == engine
      ensures txnMap == map[] && nextTxnId == 0 && nextTimestamp == 0
    {
      this.locks, this.engine, txnMap, nextTxnId, nextTimestamp := locks, engine, map[], 0, 0;
    }

    /** Every record in the log knows the one its transaction wrote before, and no number handed out later is there. */
    ghost predicate LogOk(log: G.Manager?)
      reads this`nextTxnId, log
    {
      log != null ==> log.Valid() && Chained(log.written) && IdsBelow(log.written, nextTxnId)
    }

    /** Starts a transaction, a new one unless one is given. */
    method Begin(given: K.Transaction?, log: G.Manager?) returns (txn: K.Transaction)
      requires LogOk(log) && (if given != null then Ready(given, log) else log != null ==> HasRoom(log))
      requires IsInt32(nextTxnId)
      modifies this`txnMap, this`nextTxnId, this`nextTimestamp, given, log
      ensures LogOk(log) && (log != null ==> Linked(txn, log))
      ensures given == null ==>
        && fresh(txn) && txn.id == old(nextTxnId) && nextTxnId == old(nextTxnId) + 1
        && txn.lockSet == {} && txn.writeSet == [] && (log == null ==> txn.prevLsn == INVALID_LSN)
      ensures given != null ==>
        && txn == given && nextTxnId == old(nextTxnId) && (log == null ==> txn.prevLsn == old(given.prevLsn))
        && txn.lockSet == old(given.lockSet) && txn.writeSet == old(given.writeSet)
      ensures txn.state == Growing && txn.startTs == old(nextTimestamp) && nextTimestamp == old(nextTimestamp) + 1
      ensures txnMap == old(txnMap)[txn.id := txn]
      ensures log != null ==>
        log.written == old(log.written) + [WalBegin(NextHeader(old(log.written), txn.id))]
    {
      if given == null {
        txn := Create(log);
      } else {
        txn := given;
      }
      Start(txn, log);
    }

    method Start(txn: K.Transaction, log: G.Manager?)
      requires LogOk(log) && Ready(txn, log)
      modifies this`txnMap, this`nextTimestamp, txn, log
      ensures LogOk(log) && (log != null ==> Linked(txn, log))
      ensures txn.lockSet == old(txn.lockSet) && txn.writeSet == old(txn.writeSet)
      ensures log == null ==> txn.prevLsn == old(txn.prevLsn)
      ensures txn.state == Growing && txn.startTs == old(nextTimestamp) && nextTimestamp == old(nextTimestamp) + 1
      ensures txnMap == old(txnMap)[txn.id := txn]
      ensures log != null ==>
        log.written == old(log.written) + [WalBegin(NextHeader(old(log.written), txn.id))]
    {
      txn.startTs := nextTimestamp;
      nextTimestamp := nextTimestamp + 1;
      txn.state := Growing;
      if log != null {
        AppendLog(txn, log, WalBegin(Header(INVALID_LSN, txn.id, txn.prevLsn)));
      }
      txnMap := txnMap[txn.id := txn];
    }

    method Create(ghost log: G.Manager?) returns (txn: K.Transaction)
      requires LogOk(log) && IsInt32(nextTxnId)
      modifies this`nextTxnId
      ensures fresh(txn) && txn.id == old(nextTxnId) && nextTxnId == old(nextTxnId) + 1
      ensures txn.lockSet == {} && txn.writeSet == [] && txn.prevLsn == INVALID_LSN
      ensures LogOk(log) && (log != null ==> Linked(txn, log))
    {
      txn := new K.Transaction(nextTxnId);
      nextTxnId := nextTxnId + 1;
      if log != null {
        NewIdIsUnlogged(log.written, txn.id);
      }
    }

    /** Numbers the record, appends it and makes it the transaction's last one. */
    method AppendLog(txn: K.Transaction, log: G.Manager, r: WalRecord)
      requires LogOk(log) && HasRoom(log) && Linked(txn, log) && IsInt32(txn.id) && txn.id < nextTxnId
      requires RecordFits(r) && r.h == Header(INVALID_LSN, txn.id, txn.prevLsn) && TotLen(r) <= G.LOG_BUFFER_SIZE
      modifies txn`prevLsn, log
      ensures LogOk(log) && Linked(txn, log)
      ensures log.written == old(log.written) + [G.WithLsn(r, |old(log.written)|)]
    {
      ChainGrows(log.written, G.WithLsn(r, |log.written|), nextTxnId);
      txn.prevLsn := log.AddLogToBuffer(r);
    }

    method LogEnd(txn: K.Transaction, log: G.Manager, r: WalRecord)
      requires LogOk(log) && Ready(txn, log)
      requires RecordFits(r) && r.h == Header(INVALID_LSN, txn.id, txn.prevLsn) && TotLen(r) <= G.LOG_BUFFER_SIZE
      modifies txn`prevLsn, log
      ensures LogOk(log) && Linked(txn, log)
      ensures EndsWith(log, G.WithLsn(r, |old(log.written)|), old(log.written))
    {
      AppendLog(txn, log, r);
      log.FlushLogToDisk();
    }

    /** A transaction number the log can carry, whose last record the transaction knows. */
    ghost predicate Ready(txn: K.Transaction, log: G.Manager?)
      reads this`nextTxnId, txn, log
    {
      log != null ==> HasRoom(log) && Linked(txn, log) && IsInt32(txn.id) && txn.id < nextTxnId
    }

    /** The commit record is on disk before the first lock goes; a finished transaction is left alone. */
    method Commit(txn: K.Transaction?, log: G.Manager?)
      requires locks.Valid() && LogOk(log) && (txn != null ==> locks.Tracks(txn) && Ready(txn, log))
      modifies locks, txn, log
      ensures locks.Valid() && LogOk(log) && (txn != null ==> locks.Tracks(txn) && (log != null ==> Linked(txn, log)))
      ensures txn == null || Finished(old(txn.state)) ==>
        && locks.held == old(locks.held)
        && (log != null ==> log.written == old(log.written) && log.disk == old(log.disk))
        && (txn != null ==> txn.state == old(txn.state) && txn.writeSet == old(txn.writeSet))
      ensures txn != null && !Finished(old(txn.state)) ==>
        && txn.state == Committed && txn.lockSet == {} && txn.writeSet == []
        && locks.held == Released(old(locks.held), txn.id)
        && (log != null ==> EndsWith(log, WalCommit(NextHeader(old(log.written), txn.id)), old(log.written)))
    {
      if txn == null || Finished(txn.state) {
        return;
      }
      if log != null {
        LogEnd(txn, log, WalCommit(Header(INVALID_LSN, txn.id, txn.prevLsn)));
      }
      txn.writeSet := [];
      locks.UnlockAll(txn);
      txn.state := Committed;
    }

    /** The write set is taken back while the locks are still held, and the abort record is written last.  When an
        index refuses an entry the call ends there, by exception: locks, state and log are as before. */
    method Abort(txn: K.Transaction?, log: G.Manager?) returns (ok: bool)
      requires locks.Valid() && LogOk(log) && (txn != null ==> locks.Tracks(txn) && Ready(txn, log))
      modifies locks, engine, txn, log
      ensures locks.Valid() && LogOk(log) && (txn != null ==> locks.Tracks(txn) && (log != null ==> Linked(txn, log)))
      ensures txn == null || Finished(old(txn.state)) ==>
        && ok && engine.Db() == old(engine.Db())
        && (txn != null ==> txn.writeSet == old(txn.writeSet))
      ensures txn != null && !Finished(old(txn.state)) ==>
        Rolled(engine.Db(), txn.writeSet, ok) == Roll(old(engine.Db()), old(txn.writeSet))
      ensures txn == null || Finished(old(txn.state)) || !ok ==>
        && locks.held == old(locks.held)
        && (log != null ==> log.written == old(log.written) && log.disk == old(log.disk))
        && (txn != null ==> txn.state == old(txn.state))
      ensures txn != null && !Finished(old(txn.state)) && ok ==>
        && txn.state == Aborted && txn.lockSet == {} && txn.writeSet == []
        && locks.held == Released(old(locks.held), txn.id)
        && (log != null ==> EndsWith(log, WalAbort(NextHeader(old(log.written), txn.id)), old(log.written)))
    {
      if txn == null || Finished(txn.state) {
        return true;
      }
      RollFinishes(engine.Db(), txn.writeSet);
      ok := engine.Abort(txn);
      if !ok {
        return;
      }
      locks.UnlockAll(txn);
      if log != null {
        LogEnd(txn, log, WalAbort(Header(INVALID_LSN, txn.id, txn.prevLsn)));
      }
      txn.state := Aborted;
    }
  }

  predicate Finished(state: TxnState)
  {
    state.Committed? || state.Aborted?
  }

  /** The header of a transaction's next record. */
  ghost function NextHeader(written: seq<WalRecord>, t: TxnId): Header
  {
    Header(|written|, t, LastOf(written, t))
  }

  /** One record more, and everything is on disk. */
  ghost predicate EndsWith(log: G.Manager, r: WalRecord, written: seq<WalRecord>)
    reads log
  {
    log.written == written + [r] && log.onDisk == |log.written|
  }

  ghost predicate HasRoom(log: G.Manager)
    reads log
  {
    log.globalLsn < 0x8000_0000
  }

  /** The transaction knows the number of its last record. */
  ghost predicate Linked(txn: K.Transaction, log: G.Manager)
    reads txn, log
  {
    txn.prevLsn == LastOf(log.written, txn.id)
  }
}
