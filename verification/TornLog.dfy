/** A crash may lose the end of the log: what is left is the log of an earlier moment of the same run. */
module TornLog {
  import opened Records
  import opened LogRecords
  import opened TwoPhase
  import opened Recovery
  import F = LogFormat
  import W = LogStream
  import M = LogManager

  /** A step appends one record or none. */
  lemma StepLog(st: State, s: Step)
    requires Enabled(st, s)
    ensures Next(st, s).log == st.log || exists r :: Next(st, s).log == st.log + [r]
    ensures st.log <= Next(st, s).log && |Next(st, s).log| <= |st.log| + 1
    ensures st.committed <= Next(st, s).committed
  {
    var next := Next(st, s);
    if next.log != st.log {
      assert next.log == st.log + [next.log[|st.log|]];
    }
  }

  lemma {:induction false} RunGrows(st: State, steps: seq<Step>, last: State)
    requires Run(st, steps, last)
    ensures st.log <= last.log && st.committed <= last.committed
    decreases |steps|
  {
    if steps != [] {
      StepLog(st, steps[0]);
      RunGrows(Next(st, steps[0]), steps[1..], last);
    }
  }

  /** The moment at which the log was the first `k` records. */
  lemma {:induction false} MomentOf(st: State, steps: seq<Step>, last: State, k: nat) returns (m: nat, mid: State)
    requires Run(st, steps, last) && |st.log| <= k <= |last.log|
    ensures m <= |steps| && Run(st, steps[..m], mid)
    ensures mid.log == last.log[..k] && mid.committed <= last.committed
    decreases |steps|
  {
    RunGrows(st, steps, last);
    if |st.log| == k {
      m, mid := 0, st;
    } else {
      var next := Next(st, steps[0]);
      StepLog(st, steps[0]);
      m, mid := MomentOf(next, steps[1..], last, k);
      m := m + 1;
      assert steps[..m][1..] == steps[1..][..m - 1];
    }
  }

  /** Recovery from the first `k` records, however often it is interrupted, leaves exactly the work committed by
      then, a prefix of all the committed work, if and only if the image holds nothing else. */
  lemma RecoveryFromTornLog(s0: Store, steps: seq<Step>, last: State, k: nat, image: Store, stops: seq<nat>)
    returns (m: nat, mid: State)
    requires Run(Initial(s0), steps, last) && k <= |last.log| && StopsWithin(stops, Plan(last.log[..k]))
    ensures m <= |steps| && Run(Initial(s0), steps[..m], mid)
    ensures mid.log == last.log[..k] && mid.committed <= last.committed
    ensures Interrupted(image, Plan(mid.log), stops) == Apply(image, Plan(mid.log))
    ensures Apply(image, Plan(mid.log)) == SerialRun(s0, mid.committed) <==> KeepsUnlogged(s0, mid.log, image)
  {
    m, mid := MomentOf(Initial(s0), steps, last, k);
    RecoveryIsExact(s0, steps[..m], mid, image);
    RestartsDoNotMatter(image, mid.log, stops);
  }

  // ---------- from the bytes of the file to the committed rows ----------

  /** The record a run would log, with the table found by its name. */
  function Meaning(w: F.WalRecord, tableOf: seq<int> -> int): LogRecord
  {
    match w
    case WalBegin(h) => LogBegin(h.tid)
    case WalCommit(h) => LogCommit(h.tid)
    case WalAbort(h) => LogAbort(h.tid)
    case WalInsert(h, value, rid, name) => LogInsert(h.tid, Loc(tableOf(name), rid), value)
    case WalDelete(h, value, rid, name) => LogDelete(h.tid, Loc(tableOf(name), rid), value)
    case WalUpdate(h, before, after, rid, name) => LogUpdate(h.tid, Loc(tableOf(name), rid), before, after)
  }

  /** Numbering a record does not change what it means, and what it means is what the executors put into it. */
  lemma MeaningMeans(w: F.WalRecord, lsn: int, tableOf: seq<int> -> int)
    ensures Meaning(M.WithLsn(w, lsn), tableOf) == Meaning(w, tableOf)
    ensures Meaning(w, tableOf).txn == w.h.tid
    ensures w.WalUpdate? || w.WalInsert? || w.WalDelete? <==> Meaning(w, tableOf).IsWrite()
    ensures Meaning(w, tableOf).IsWrite() ==> Meaning(w, tableOf).loc == Loc(tableOf(w.name), w.rid)
    ensures w.WalUpdate? ==>
      Meaning(w, tableOf).Before() == Present(w.before) && Meaning(w, tableOf).After() == Present(w.after)
    ensures w.WalInsert? ==> Meaning(w, tableOf).Before() == Absent && Meaning(w, tableOf).After() == Present(w.value)
    ensures w.WalDelete? ==> Meaning(w, tableOf).Before() == Present(w.value) && Meaning(w, tableOf).After() == Absent
    ensures w.WalCommit? <==> Meaning(w, tableOf).LogCommit?
    ensures w.WalAbort? <==> Meaning(w, tableOf).LogAbort?
  {}

  function Meanings(ws: seq<F.WalRecord>, tableOf: seq<int> -> int): seq<LogRecord>
  {
    seq(|ws|, i requires 0 <= i < |ws| => Meaning(ws[i], tableOf))
  }

  /** What is read of the log file after a crash that keeps `k` bytes of it. */
  ghost function ReadLog(cs: seq<seq<int>>, onDisk: nat, k: nat, tableOf: seq<int> -> int): seq<LogRecord>
    requires onDisk <= |cs| && k <= |W.Concat(cs[..onDisk])|
  {
    Meanings(W.ReadWith(W.NextRecord, W.Concat(cs[..onDisk])[..k]), tableOf)
  }

  /** The file holds the records of the run in bytes, and the crash keeps `k` of those bytes. */
  ghost predicate LogFile(log: seq<LogRecord>, rs: seq<F.WalRecord>, cs: seq<seq<int>>, onDisk: nat, k: nat,
                          tableOf: seq<int> -> int)
  {
    Meanings(rs, tableOf) == log && M.Coded(rs, cs) && onDisk <= |rs| && k <= |W.Concat(cs[..onDisk])|
  }

  /** Cut the log file at any byte: reading it back, redoing and undoing, however often that is interrupted, leaves
      exactly the work that had committed at some moment of the run, if and only if the image holds nothing else. */
  lemma CrashAnywhere(s0: Store, steps: seq<Step>, last: State, rs: seq<F.WalRecord>, cs: seq<seq<int>>, onDisk: nat,
                      k: nat, tableOf: seq<int> -> int, image: Store, stops: seq<nat>) returns (m: nat, mid: State)
    requires Run(Initial(s0), steps, last) && LogFile(last.log, rs, cs, onDisk, k, tableOf)
    requires StopsWithin(stops, Plan(ReadLog(cs, onDisk, k, tableOf)))
    ensures m <= |steps| && Run(Initial(s0), steps[..m], mid)
    ensures mid.log == ReadLog(cs, onDisk, k, tableOf) == last.log[..W.WholeWithin(cs[..onDisk], k)]
    ensures mid.committed <= last.committed
    ensures Interrupted(image, Plan(mid.log), stops) == Apply(image, Plan(mid.log))
    ensures Apply(image, Plan(mid.log)) == SerialRun(s0, mid.committed) <==> KeepsUnlogged(s0, mid.log, image)
  {
    M.CrashReadsPrefix(rs, cs, onDisk, k);
    var logs := W.ReadWith(W.NextRecord, W.Concat(cs[..onDisk])[..k]);
    assert Meanings(logs, tableOf) == last.log[..|logs|];
    m, mid := RecoveryFromTornLog(s0, steps, last, |logs|, image, stops);
  }
}
