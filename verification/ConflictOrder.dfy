/** Conflicting accesses happen in commit order, and the log's commit records give that order. */
module ConflictOrder {
  import L = LockModel
  import opened Records
  import opened LogRecords
  import opened TwoPhase
  import opened Serializability

  predicate Conflict(a: Event, b: Event)
  {
    a.Access? && b.Access? && a.txn != b.txn && a.table == b.table && (a.write || b.write)
  }

  /** Some event strictly between `i` and `j` ends the transaction of event `i`. */
  ghost predicate EndedBetween(h: seq<Event>, i: nat, j: nat)
    requires i < |h| && j <= |h|
  {
    exists k :: i < k < j && h[k].End? && h[k].txn == h[i].txn
  }

  /** Of two conflicting accesses, the first one's transaction has finished before the second is made. */
  ghost predicate Strict(h: seq<Event>)
  {
    forall i, j :: 0 <= i < j < |h| && Conflict(h[i], h[j]) ==> EndedBetween(h, i, j)
  }

  ghost predicate NothingAfterEnd(h: seq<Event>)
  {
    forall i, j :: 0 <= i < j < |h| && h[i].End? ==> h[j].txn != h[i].txn
  }

  /** A live transaction still holds what each of its accesses needed; one that is gone has its end on record. */
  ghost predicate Accounted(st: State, i: nat)
    requires i < |st.history|
  {
    var e := st.history[i];
    && e.txn in st.locks.states
    && (e.End? ==> e.txn !in st.txns)
    && (e.Access? && e.txn in st.txns ==> Owns(st, e.txn, e.table) && (e.write ==> OwnsX(st, e.txn, e.table)))
    && (e.Access? && e.txn !in st.txns ==> EndedBetween(st.history, i, |st.history|))
  }

  ghost predicate HistoryInv(st: State)
  {
    && (forall i :: 0 <= i < |st.history| ==> Accounted(st, i))
    && Strict(st.history) && NothingAfterEnd(st.history)
  }

  lemma EndedSnoc(h: seq<Event>, e: Event, i: nat, j: nat)
    requires i < |h| && j <= |h| && EndedBetween(h, i, j)
    ensures EndedBetween(h + [e], i, j) && EndedBetween(h + [e], i, |h + [e]|)
  {
    var k :| i < k < j && h[k].End? && h[k].txn == h[i].txn;
    assert (h + [e])[k] == h[k];
  }

  lemma StrictSnoc(h: seq<Event>, e: Event)
    requires Strict(h) && NothingAfterEnd(h)
    requires forall i :: 0 <= i < |h| && Conflict(h[i], e) ==> EndedBetween(h, i, |h|)
    requires forall i :: 0 <= i < |h| && h[i].End? ==> h[i].txn != e.txn
    ensures Strict(h + [e]) && NothingAfterEnd(h + [e])
  {
    var h' := h + [e];
    assert forall i :: 0 <= i < |h| ==> h'[i] == h[i];
    forall i, j | 0 <= i < j < |h'| && Conflict(h'[i], h'[j]) ensures EndedBetween(h', i, j) {
      assert Conflict(h[i], h'[j]);
      EndedSnoc(h, e, i, j);
    }
  }

  /** One more access by a transaction that holds the lock it needs. */
  lemma AccessKeepsHistory(st: State, st': State, e: Event)
    requires HistoryInv(st) && Locked(st) && e.Access? && e.txn in st.txns
    requires Owns(st, e.txn, e.table) && (e.write ==> OwnsX(st, e.txn, e.table))
    requires st'.history == st.history + [e] && st'.locks == st.locks && st'.txns.Keys == st.txns.Keys
    ensures HistoryInv(st')
  {
    var h := st.history;
    forall i | 0 <= i < |h| && Conflict(h[i], e) ensures EndedBetween(h, i, |h|) {
      assert Accounted(st, i);
      if h[i].txn in st.txns {
        if e.write {
          Exclusion(st, e.txn, h[i].txn, e.table);
        } else {
          Exclusion(st, h[i].txn, e.txn, e.table);
        }
      }
    }
    forall i | 0 <= i < |h| && h[i].End? ensures h[i].txn != e.txn {
      assert Accounted(st, i);
    }
    StrictSnoc(h, e);
    forall i | 0 <= i < |st'.history| ensures Accounted(st', i) {
      if i < |h| {
        assert Accounted(st, i);
        if h[i].Access? && h[i].txn !in st.txns {
          EndedSnoc(h, e, i, |h|);
        }
      } else {
        assert L.Live(st.locks, e.txn);
      }
    }
  }

  lemma EndKeepsHistory(st: State, st': State, t: TxnId, e: Event)
    requires HistoryInv(st) && Locked(st) && LetsGo(st, st', t) && e.End? && e.txn == t
    requires st'.history == st.history + [e] && st'.locks.states.Keys == st.locks.states.Keys
    ensures HistoryInv(st')
  {
    var h := st.history;
    forall i | 0 <= i < |h| && h[i].End? ensures h[i].txn != t {
      assert Accounted(st, i);
    }
    StrictSnoc(h, e);
    forall i | 0 <= i < |st'.history| ensures Accounted(st', i) {
      assert st'.history[|h|] == e;
      if i < |h| {
        assert Accounted(st, i);
        if h[i].Access? && h[i].txn !in st.txns {
          EndedSnoc(h, e, i, |h|);
        }
      } else {
        assert L.Live(st.locks, t);
      }
    }
  }

  /** Steps that only add a transaction or strengthen locks. */
  lemma GrowKeepsHistory(st: State, st': State)
    requires HistoryInv(st) && st'.history == st.history
    requires st.locks.states.Keys <= st'.locks.states.Keys
    requires forall t :: t in st.txns ==> t in st'.txns
    requires forall t :: t in st'.txns && t in st.locks.states ==> t in st.txns
    requires forall t, y :: Owns(st, t, y) ==> Owns(st', t, y)
    requires forall t, y :: OwnsX(st, t, y) ==> OwnsX(st', t, y)
    ensures HistoryInv(st')
  {
    forall i | 0 <= i < |st'.history| ensures Accounted(st', i) {
      assert Accounted(st, i);
    }
  }

  lemma StepKeepsHistory(st: State, s: Step)
    requires HistoryInv(st) && Locked(st) && Enabled(st, s)
    ensures HistoryInv(Next(st, s))
  {
    var st' := Next(st, s);
    match s
    case Begin(t) => GrowKeepsHistory(st, st');
    case Lock(t, tab, exclusive) =>
      LockFacts(st, t, tab, exclusive);
      GrowKeepsHistory(st, st');
    case RejectedUpdate(t, x) => GrowKeepsHistory(st, st');
    case Scan(t, tab) => AccessKeepsHistory(st, st', Access(t, tab, false));
    case Commit(t) =>
      FinishFacts(st, t, true);
      EndKeepsHistory(st, st', t, End(t, true));
    case Abort(t) =>
      FinishFacts(st, t, false);
      EndKeepsHistory(st, st', t, End(t, false));
    case _ => AccessKeepsHistory(st, st', Access(s.txn, s.loc.table, true));
  }

  lemma {:induction false} RunKeepsHistory(s0: Store, st: State, steps: seq<Step>, last: State)
    requires Inv(s0, st) && HistoryInv(st) && Run(st, steps, last)
    ensures HistoryInv(last)
    decreases |steps|
  {
    if steps != [] {
      StepKeepsInv(s0, st, steps[0]);
      StepKeepsHistory(st, steps[0]);
      RunKeepsHistory(s0, Next(st, steps[0]), steps[1..], last);
    }
  }

  /** In every run, if an access conflicts with an earlier one then the earlier transaction had already
      finished; so when both commit, they commit in the order of their conflicts. */
  lemma ConflictsFollowCommitOrder(s0: Store, steps: seq<Step>, last: State, i: nat, j: nat, a: nat, b: nat)
    requires Run(Initial(s0), steps, last)
    requires i < j < |last.history| && last.history[i].Access? && last.history[j].Access?
    requires last.history[i].txn != last.history[j].txn && last.history[i].table == last.history[j].table
    requires last.history[i].write || last.history[j].write
    requires a < |last.history| && last.history[a] == End(last.history[i].txn, true)
    requires b < |last.history| && last.history[b] == End(last.history[j].txn, true)
    ensures i < a < j < b
  {
    InitialInv(s0);
    RunKeepsHistory(s0, Initial(s0), steps, last);
    var h := last.history;
    assert EndedBetween(h, i, j);
    var k :| i < k < j && h[k].End? && h[k].txn == h[i].txn;
    OneEnd(h, a, k);
    NotBeforeEnd(h, j, b);
  }

  lemma OneEnd(h: seq<Event>, a: nat, k: nat)
    requires NothingAfterEnd(h) && a < |h| && k < |h| && h[a].End? && h[k].End? && h[a].txn == h[k].txn
    ensures a == k
  {}

  lemma NotBeforeEnd(h: seq<Event>, j: nat, b: nat)
    requires NothingAfterEnd(h) && j < |h| && b < |h| && h[j].Access? && h[b].End? && h[b].txn == h[j].txn
    ensures j < b
  {}

  // ---------- the order is the order of the commit records ----------

  function CommitRecords(log: seq<LogRecord>): seq<TxnId>
    decreases |log|
  {
    if log == [] then [] else
      CommitRecords(log[..|log| - 1]) + if log[|log| - 1].LogCommit? then [log[|log| - 1].txn] else []
  }

  ghost predicate InCommitOrder(st: State)
  {
    && |CommitRecords(st.log)| == |st.committed|
    && forall i :: 0 <= i < |st.committed| ==> CommitRecords(st.log)[i] == st.committed[i].txn
  }

  lemma CommitRecordsSnoc(log: seq<LogRecord>, r: LogRecord)
    ensures CommitRecords(log + [r]) == if r.LogCommit? then CommitRecords(log) + [r.txn] else CommitRecords(log)
  {
    assert (log + [r])[..|log + [r]| - 1] == log;
  }

  lemma {:induction false} SerialOrderIsLogOrder(st: State, steps: seq<Step>, last: State)
    requires InCommitOrder(st) && Run(st, steps, last)
    ensures InCommitOrder(last)
    ensures CommitRecords(last.log) ==
      seq(|last.committed|, i requires 0 <= i < |last.committed| => last.committed[i].txn)
    decreases |steps|
  {
    if steps != [] {
      var next := Next(st, steps[0]);
      if next.log != st.log {
        var r := next.log[|st.log|];
        assert next.log == st.log + [r];
        CommitRecordsSnoc(st.log, r);
      }
      SerialOrderIsLogOrder(next, steps[1..], last);
    }
  }
}
