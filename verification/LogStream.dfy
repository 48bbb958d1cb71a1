/** A stream of encoded records, cut anywhere. */
module LogStream {
  import opened LogFormat

  // ---------- chunks of bytes one after another ----------

  function Concat(cs: seq<seq<int>>): seq<int>
  {
    if cs == [] then [] else cs[0] + Concat(cs[1..])
  }

  lemma {:induction false} ConcatJoin(a: seq<seq<int>>, b: seq<seq<int>>)
    ensures Concat(a + b) == Concat(a) + Concat(b)
  {
    if a == [] {
      assert a + b == b;
    } else {
      assert (a + b)[1..] == a[1..] + b;
      ConcatJoin(a[1..], b);
    }
  }

  /** Chunk `i` starts where the chunks before it end. */
  lemma ConcatAt(cs: seq<seq<int>>, i: nat)
    requires i <= |cs|
    ensures Concat(cs) == Concat(cs[..i]) + Concat(cs[i..])
    ensures i < |cs| ==> Concat(cs[i..]) == cs[i] + Concat(cs[i + 1..])
    ensures i < |cs| ==> Concat(cs[..i + 1]) == Concat(cs[..i]) + cs[i]
  {
    ConcatJoin(cs[..i], cs[i..]);
    assert cs[..i] + cs[i..] == cs;
    if i < |cs| {
      assert cs[i..][1..] == cs[i + 1..];
      assert cs[..i + 1] == cs[..i] + [cs[i]];
      ConcatSnoc(cs[..i], cs[i]);
    }
  }

  lemma ConcatSnoc(cs: seq<seq<int>>, c: seq<int>)
    ensures Concat(cs + [c]) == Concat(cs) + c
  {
    ConcatJoin(cs, [c]);
    assert [c][1..] == [];
    assert Concat([c]) == c + Concat([]);
  }

  /** How many chunks lie wholly within the first `k` bytes. */
  function WholeWithin(cs: seq<seq<int>>, k: nat): (m: nat)
    ensures m <= |cs|
  {
    if cs == [] || |cs[0]| > k then 0 else 1 + WholeWithin(cs[1..], k - |cs[0]|)
  }

  lemma {:induction false} WholeWithinIs(cs: seq<seq<int>>, k: nat)
    ensures var m := WholeWithin(cs, k);
      |Concat(cs[..m])| <= k && (m < |cs| ==> k < |Concat(cs[..m + 1])|)
  {
    if cs != [] {
      var m := WholeWithin(cs, k);
      if |cs[0]| <= k {
        WholeWithinIs(cs[1..], k - |cs[0]|);
        assert cs[..m][1..] == cs[1..][..m - 1];
        assert m < |cs| ==> cs[..m + 1][1..] == cs[1..][..m];
      } else {
        assert cs[..1][1..] == [];
      }
    }
  }

  // ---------- reading with any reader ----------

  type Reader = seq<int> -> Option<Field<WalRecord>>

  function ReadWith(next: Reader, bs: seq<int>): seq<WalRecord>
    decreases |bs|
  {
    var r := next(bs);
    if r.None? || r.v.end <= 0 || r.v.end > |bs| then [] else [r.v.v] + ReadWith(next, bs[r.v.end..])
  }

  /** The reader finds the record at the front of any bytes that start with its chunk, and nothing in a chunk
      that is cut short. */
  ghost predicate Understands(next: Reader, r: WalRecord, c: seq<int>)
  {
    c != [] && forall bs :: ReadsFront(next, r, c, bs)
  }

  ghost predicate ReadsFront(next: Reader, r: WalRecord, c: seq<int>, bs: seq<int>)
  {
    && (|bs| >= |c| && bs[..|c|] == c ==> next(bs) == Some(Field(r, |c|)))
    && (|bs| < |c| && bs == c[..|bs|] ==> next(bs) == None)
  }

  ghost predicate UnderstandsAll(next: Reader, rs: seq<WalRecord>, cs: seq<seq<int>>)
  {
    |rs| == |cs| && forall i :: 0 <= i < |rs| ==> UnderstandsAt(next, rs, cs, i)
  }

  ghost predicate UnderstandsAt(next: Reader, rs: seq<WalRecord>, cs: seq<seq<int>>, i: nat)
    requires i < |rs| == |cs|
  {
    Understands(next, rs[i], cs[i])
  }

  lemma {:induction false} PrefixReads(next: Reader, rs: seq<WalRecord>, cs: seq<seq<int>>, k: nat)
    requires UnderstandsAll(next, rs, cs) && next([]) == None && k <= |Concat(cs)|
    ensures ReadWith(next, Concat(cs)[..k]) == rs[..WholeWithin(cs, k)]
    decreases |cs|
  {
    var bs := Concat(cs)[..k];
    if cs == [] {
      assert bs == [];
    } else {
      assert UnderstandsAt(next, rs, cs, 0);
      FrontOf(cs, k);
      assert ReadsFront(next, rs[0], cs[0], bs);
      if |cs[0]| <= k {
        RestUnderstood(next, rs, cs);
        PrefixReads(next, rs[1..], cs[1..], k - |cs[0]|);
        assert rs[..WholeWithin(cs, k)] == [rs[0]] + rs[1..][..WholeWithin(cs[1..], k - |cs[0]|)];
      }
    }
  }

  lemma FrontOf(cs: seq<seq<int>>, k: nat)
    requires cs != [] && k <= |Concat(cs)|
    ensures var bs, n := Concat(cs)[..k], |cs[0]|;
      if n <= k then bs[..n] == cs[0] && bs[n..] == Concat(cs[1..])[..k - n] else bs == cs[0][..k]
  {}

  lemma RestUnderstood(next: Reader, rs: seq<WalRecord>, cs: seq<seq<int>>)
    requires UnderstandsAll(next, rs, cs) && cs != []
    ensures UnderstandsAll(next, rs[1..], cs[1..])
  {
    forall i | 0 <= i < |rs| - 1 ensures UnderstandsAt(next, rs[1..], cs[1..], i) {
      assert UnderstandsAt(next, rs, cs, i + 1);
    }
  }

  /** The loop that reads the whole file. */
  method ReadLoop(next: Reader, bs: seq<int>) returns (logs: seq<WalRecord>)
    ensures logs == ReadWith(next, bs)
  {
    logs := [];
    var offset := 0;
    assert bs[0..] == bs;
    while true
      invariant 0 <= offset <= |bs| && logs + ReadWith(next, bs[offset..]) == ReadWith(next, bs)
      decreases |bs| - offset
    {
      var rest := bs[offset..];
      var r := next(rest);
      if r.None? || r.v.end <= 0 || r.v.end > |rest| {
        return;
      }
      assert rest[r.v.end..] == bs[offset + r.v.end..];
      logs := logs + [r.v.v];
      offset := offset + r.v.end;
    }
  }

  // ---------- the reader of the log file ----------

  /** One turn of read_all_logs: a header, a length that is possible, a record. */
  function NextRecord(bs: seq<int>): Option<Field<WalRecord>>
  {
    if |bs| < LOG_HEADER_SIZE then None
    else
      var len := UIntAt(bs, OFFSET_TOT_LEN, 4);
      if len < LOG_HEADER_SIZE || len > |bs| then None
      else
        var r := ParseLogRecord(bs);
        if r.None? then None else Some(Field(r.v, len))
  }

  lemma RecordUnderstood(r: WalRecord)
    requires RecordFits(r)
    ensures Understands(NextRecord, r, Serialize(r))
  {
    var c := Serialize(r);
    forall bs ensures ReadsFront(NextRecord, r, c, bs) {
      if |bs| >= |c| && bs[..|c|] == c {
        ParseBack(r, bs);
      } else if LOG_HEADER_SIZE <= |bs| < |c| && bs == c[..|bs|] {
        CutHeader(r, c, bs);
      }
    }
  }

  lemma CutHeader(r: WalRecord, c: seq<int>, bs: seq<int>)
    requires RecordFits(r) && c == Serialize(r) && LOG_HEADER_SIZE <= |bs| < |c| && bs == c[..|bs|]
    ensures UIntAt(bs, OFFSET_TOT_LEN, 4) == |c|
  {
    assert bs[..LOG_HEADER_SIZE] == c[..LOG_HEADER_SIZE];
    assert c[..|c|] == c;
    SplitRecord(r, c);
    HeaderBack(r, bs);
  }

  // ---------- the log as a whole ----------

  predicate AllFit(rs: seq<WalRecord>)
  {
    forall i :: 0 <= i < |rs| ==> RecordFits(rs[i])
  }

  function Chunks(rs: seq<WalRecord>): seq<seq<int>>
    requires AllFit(rs)
  {
    seq(|rs|, i requires 0 <= i < |rs| => Serialize(rs[i]))
  }

  method ReadAllLogs(bs: seq<int>) returns (logs: seq<WalRecord>)
    ensures logs == ReadWith(NextRecord, bs)
  {
    logs := ReadLoop(NextRecord, bs);
  }

  /** Cut anywhere, the serialised log reads back as exactly the records that are wholly there. */
  lemma PrefixReadsBack(rs: seq<WalRecord>, k: nat)
    requires AllFit(rs) && k <= |Concat(Chunks(rs))|
    ensures ReadWith(NextRecord, Concat(Chunks(rs))[..k]) == rs[..WholeWithin(Chunks(rs), k)]
  {
    forall i | 0 <= i < |rs| ensures UnderstandsAt(NextRecord, rs, Chunks(rs), i) {
      RecordUnderstood(rs[i]);
    }
    PrefixReads(NextRecord, rs, Chunks(rs), k);
  }
}
