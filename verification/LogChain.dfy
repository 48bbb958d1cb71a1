/** Each log record points back at the record its transaction wrote before. */
module LogChain {
  import opened LogFormat

  /** The number of the last record of a transaction. */
  function LastOf(rs: seq<WalRecord>, t: int): (lsn: int)
    ensures INVALID_LSN <= lsn < |rs|
    ensures lsn >= 0 ==> rs[lsn].h.tid == t
  {
    if rs == [] then INVALID_LSN
    else if rs[|rs| - 1].h.tid == t then |rs| - 1
    else LastOf(rs[..|rs| - 1], t)
  }

  ghost predicate Chained(rs: seq<WalRecord>)
  {
    forall i :: 0 <= i < |rs| ==> rs[i].h.prev == LastOf(rs[..i], rs[i].h.tid)
  }

  ghost predicate IdsBelow(rs: seq<WalRecord>, n: int)
  {
    forall i :: 0 <= i < |rs| ==> rs[i].h.tid < n
  }

  lemma NewIdIsUnlogged(rs: seq<WalRecord>, n: int)
    requires IdsBelow(rs, n)
    ensures LastOf(rs, n) == INVALID_LSN && IdsBelow(rs, n + 1)
  {}

  lemma ChainGrows(rs: seq<WalRecord>, r: WalRecord, n: int)
    requires Chained(rs) && IdsBelow(rs, n) && r.h.tid < n && r.h.prev == LastOf(rs, r.h.tid)
    ensures Chained(rs + [r]) && IdsBelow(rs + [r], n) && LastOf(rs + [r], r.h.tid) == |rs|
  {
    var next := rs + [r];
    forall i | 0 <= i < |next| ensures next[i].h.prev == LastOf(next[..i], next[i].h.tid) {
      assert next[..i] == rs[..i];
      assert rs[..|rs|] == rs;
    }
  }

  /** The records met by following the pointers back from a number, oldest first. */
  function Chain(rs: seq<WalRecord>, lsn: int): seq<WalRecord>
    requires lsn < |rs|
    decreases lsn
  {
    if lsn < 0 then []
    else if rs[lsn].h.prev >= lsn then [rs[lsn]]
    else Chain(rs, rs[lsn].h.prev) + [rs[lsn]]
  }

  function RecordsOf(rs: seq<WalRecord>, t: int): seq<WalRecord>
  {
    if rs == [] then []
    else RecordsOf(rs[..|rs| - 1], t) + if rs[|rs| - 1].h.tid == t then [rs[|rs| - 1]] else []
  }

  lemma {:induction false} ChainOfPrefix(rs: seq<WalRecord>, n: nat, lsn: int)
    requires lsn < n <= |rs|
    ensures Chain(rs, lsn) == Chain(rs[..n], lsn)
    decreases lsn
  {
    if lsn >= 0 && rs[lsn].h.prev < lsn {
      ChainOfPrefix(rs, n, rs[lsn].h.prev);
    }
  }

  /** Following the pointers from a transaction's last record meets all its records, in order, and no other. */
  lemma {:induction false} ChainIsTransaction(rs: seq<WalRecord>, t: int)
    requires Chained(rs)
    ensures Chain(rs, LastOf(rs, t)) == RecordsOf(rs, t)
    decreases |rs|
  {
    if rs != [] {
      var n := |rs| - 1;
      var front := rs[..n];
      forall i | 0 <= i < n ensures front[i].h.prev == LastOf(front[..i], front[i].h.tid) {
        assert front[..i] == rs[..i];
      }
      ChainIsTransaction(front, t);
      ChainOfPrefix(rs, n, LastOf(front, t));
    }
  }
}
