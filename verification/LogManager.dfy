/** The log manager: a buffer in front of the log file. */
module LogManager {
  import opened LogFormat
  import opened LogStream

  const LOG_BUFFER_SIZE := 1024 * 4096

  /** Record `i` carries number `i` and chunk `i` holds its bytes. */
  ghost predicate CodedAt(rs: seq<WalRecord>, cs: seq<seq<int>>, i: nat)
    requires i < |rs| == |cs|
  {
    RecordFits(rs[i]) && rs[i].h.lsn == i && cs[i] == Serialize(rs[i])
  }

  ghost predicate Coded(rs: seq<WalRecord>, cs: seq<seq<int>>)
  {
    |rs| == |cs| && forall i :: 0 <= i < |rs| ==> CodedAt(rs, cs, i)
  }

  class Manager {
    /** Bytes up to offset_. */
    var buffer: seq<int>
    var globalLsn: int
    var persistLsn: int
    /** The log file. */
    var disk: seq<int>
    /** Every record appended so far, its bytes, and how many records are on disk. */
    ghost var written: seq<WalRecord>
    ghost var chunks: seq<seq<int>>
    ghost var onDisk: nat

    ghost predicate Valid()
      reads this
    {
      && Coded(written, chunks) && onDisk <= |written| && globalLsn == |written|
      && disk == Concat(chunks[..onDisk]) && buffer == Concat(chunks[onDisk..])
      && |buffer| <= LOG_BUFFER_SIZE
      && INVALID_LSN <= persistLsn < onDisk
    }

    constructor ()
      ensures Valid() && written == [] && disk == []
    {
      buffer, disk, globalLsn, persistLsn := [], [], 0, INVALID_LSN;
      written, chunks, onDisk := [], [], 0;
    }

    /** Appends the record under the next number, making room first by writing the buffer out.  A record arrives
        with the invalid number its constructor gave it, or with one it got here before; only in the second case
        does writing out move persist_lsn_. */
    method AddLogToBuffer(r: WalRecord) returns (lsn: int)
      requires Valid() && RecordFits(r) && INVALID_LSN <= r.h.lsn < globalLsn
      requires TotLen(r) <= LOG_BUFFER_SIZE && globalLsn < 0x8000_0000
      modifies this
      ensures Valid() && lsn == |old(written)| && written == old(written) + [WithLsn(r, lsn)]
      ensures |written| == |old(written)| + 1 && SameButNumber(written[lsn], r) && written[lsn].h.lsn == lsn
      ensures |buffer| <= LOG_BUFFER_SIZE
      ensures var full := |old(buffer)| + TotLen(r) > LOG_BUFFER_SIZE;
        && onDisk == (if full then |old(written)| else old(onDisk))
        && persistLsn == (if full && r.h.lsn != INVALID_LSN then r.h.lsn - 1 else old(persistLsn))
    {
      if |buffer| + TotLen(r) > LOG_BUFFER_SIZE {
        WriteOut();
        if r.h.lsn != INVALID_LSN {
          persistLsn := r.h.lsn - 1;
        }
      }
      lsn := globalLsn;
      globalLsn := globalLsn + 1;
      var bytes := Numbered(r, lsn);
      Append(written, chunks, onDisk, r, bytes);
      buffer := buffer + bytes;
      written := written + [WithLsn(r, lsn)];
      chunks := chunks + [bytes];
    }

    /** The whole buffer goes to the end of the file. */
    method WriteOut()
      requires Valid()
      modifies this
      ensures Valid() && buffer == [] && onDisk == |written|
      ensures written == old(written) && chunks == old(chunks)
      ensures persistLsn == old(persistLsn) && globalLsn == old(globalLsn)
    {
      ConcatAt(chunks, onDisk);
      disk := disk + buffer;
      buffer := [];
      onDisk := |written|;
      assert chunks[..onDisk] == chunks && chunks[onDisk..] == [];
    }

    method FlushLogToDisk()
      requires Valid()
      modifies this
      ensures Valid() && written == old(written) && onDisk == |written| && buffer == []
      ensures persistLsn == if old(buffer) == [] then old(persistLsn) else |written| - 1
    {
      NothingBuffered(written, chunks, onDisk);
      if |buffer| == 0 {
        return;
      }
      var lastLsn := LastLsn(buffer, written, chunks, onDisk);
      WriteOut();
      persistLsn := lastLsn;
    }
  }

  function WithLsn(r: WalRecord, lsn: int): WalRecord
  {
    r.(h := r.h.(lsn := lsn))
  }

  /** The two records have the same kind, transaction, previous number, values, place and table. */
  predicate SameButNumber(a: WalRecord, b: WalRecord)
  {
    && a.h.tid == b.h.tid && a.h.prev == b.h.prev
    && match a
       case WalUpdate(_, before, after, rid, name) =>
         b.WalUpdate? && before == b.before && after == b.after && rid == b.rid && name == b.name
       case WalInsert(_, value, rid, name) => b.WalInsert? && value == b.value && rid == b.rid && name == b.name
       case WalDelete(_, value, rid, name) => b.WalDelete? && value == b.value && rid == b.rid && name == b.name
       case WalBegin(_) => b.WalBegin?
       case WalCommit(_) => b.WalCommit?
       case WalAbort(_) => b.WalAbort?
  }

  /** Numbering a record changes nothing but its number. */
  lemma NumberingMeans(r: WalRecord, lsn: int)
    ensures WithLsn(r, lsn).h == Header(lsn, r.h.tid, r.h.prev)
    ensures r.WalUpdate? ==>
      WithLsn(r, lsn) == WalUpdate(Header(lsn, r.h.tid, r.h.prev), r.before, r.after, r.rid, r.name)
    ensures r.WalInsert? ==> WithLsn(r, lsn) == WalInsert(Header(lsn, r.h.tid, r.h.prev), r.value, r.rid, r.name)
    ensures r.WalDelete? ==> WithLsn(r, lsn) == WalDelete(Header(lsn, r.h.tid, r.h.prev), r.value, r.rid, r.name)
    ensures r.WalBegin? ==> WithLsn(r, lsn) == WalBegin(Header(lsn, r.h.tid, r.h.prev))
    ensures r.WalCommit? ==> WithLsn(r, lsn) == WalCommit(Header(lsn, r.h.tid, r.h.prev))
    ensures r.WalAbort? ==> WithLsn(r, lsn) == WalAbort(Header(lsn, r.h.tid, r.h.prev))
  {}

  method Numbered(r: WalRecord, lsn: int) returns (bytes: seq<int>)
    requires RecordFits(r) && IsInt32(lsn)
    ensures BytesOf(WithLsn(r, lsn), bytes) && |bytes| == TotLen(r)
  {
    bytes := Serialize(WithLsn(r, lsn));
  }

  ghost predicate BytesOf(r: WalRecord, c: seq<int>)
  {
    RecordFits(r) && c == Serialize(r)
  }

  lemma Append(rs: seq<WalRecord>, cs: seq<seq<int>>, onDisk: nat, r: WalRecord, c: seq<int>)
    requires Coded(rs, cs) && onDisk <= |rs| && BytesOf(WithLsn(r, |rs|), c)
    ensures var rs', cs' := rs + [WithLsn(r, |rs|)], cs + [c];
      && Coded(rs', cs') && cs'[..onDisk] == cs[..onDisk]
      && Concat(cs'[onDisk..]) == Concat(cs[onDisk..]) + c
  {
    var rs', cs' := rs + [WithLsn(r, |rs|)], cs + [c];
    forall i | 0 <= i < |rs'| ensures CodedAt(rs', cs', i) {
      assert i < |rs| ==> CodedAt(rs, cs, i);
    }
    assert cs'[onDisk..] == cs[onDisk..] + [c];
    ConcatJoin(cs[onDisk..], [c]);
    assert [c][1..] == [];
    assert Concat([c]) == c + Concat([]);
  }

  lemma NothingBuffered(rs: seq<WalRecord>, cs: seq<seq<int>>, onDisk: nat)
    requires Coded(rs, cs) && onDisk <= |rs|
    ensures Concat(cs[onDisk..]) == [] <==> onDisk == |rs|
  {
    ConcatAt(cs, onDisk);
    assert onDisk < |rs| ==> CodedAt(rs, cs, onDisk);
  }

  /** File and buffer together are the serialised records in the order of their numbers. */
  lemma StreamIsSerialised(rs: seq<WalRecord>, cs: seq<seq<int>>, onDisk: nat)
    requires Coded(rs, cs) && onDisk <= |rs|
    ensures AllFit(rs) && Concat(cs[..onDisk]) + Concat(cs[onDisk..]) == Concat(Chunks(rs))
  {
    ConcatAt(cs, onDisk);
    forall i | 0 <= i < |rs| ensures RecordFits(rs[i]) && cs[i] == Serialize(rs[i]) {
      assert CodedAt(rs, cs, i);
    }
    assert cs == Chunks(rs);
  }

  /** Walks the buffered records by their lengths to the number of the last one. */
  method LastLsn(buffer: seq<int>, ghost rs: seq<WalRecord>, ghost cs: seq<seq<int>>, ghost onDisk: nat)
    returns (lsn: int)
    requires Coded(rs, cs) && onDisk < |rs| && buffer == Concat(cs[onDisk..])
    ensures lsn == |rs| - 1
  {
    BufferedAt(rs, cs, onDisk, onDisk, buffer);
    assert cs[onDisk..onDisk] == [] && buffer[0..] == buffer;
    lsn := Int32At(buffer, OFFSET_LSN);
    var offset := 0;
    ghost var i := onDisk;
    while offset + LOG_HEADER_SIZE <= |buffer|
      invariant onDisk <= i <= |rs| && offset == |Concat(cs[onDisk..i])| <= |buffer|
      invariant lsn == if i > onDisk then i - 1 else onDisk
      decreases |rs| - i
    {
      BufferedAt(rs, cs, onDisk, i, buffer);
      var rest := buffer[offset..];
      var len := UIntAt(rest, OFFSET_TOT_LEN, 4);
      if len == 0 || offset + len > |buffer| {
        break;
      }
      lsn := Int32At(rest, OFFSET_LSN);
      offset := offset + len;
      i := i + 1;
    }
    BufferedAt(rs, cs, onDisk, i, buffer);
  }

  /** What stands in the buffer after the records before `i`: nothing at the end, else the header of record `i`. */
  lemma BufferedAt(rs: seq<WalRecord>, cs: seq<seq<int>>, onDisk: nat, i: nat, buffer: seq<int>)
    requires Coded(rs, cs) && onDisk <= i <= |rs| && buffer == Concat(cs[onDisk..])
    ensures var at := |Concat(cs[onDisk..i])|;
      && at <= |buffer|
      && (i == |rs| ==> at == |buffer|)
      && (i < |rs| ==>
        && LOG_HEADER_SIZE <= |cs[i]| <= |buffer| - at
        && UIntAt(buffer[at..], OFFSET_TOT_LEN, 4) == |cs[i]|
        && Int32At(buffer[at..], OFFSET_LSN) == i
        && |Concat(cs[onDisk..i + 1])| == at + |cs[i]|)
  {
    var tail := cs[onDisk..];
    var j := i - onDisk;
    ConcatAt(tail, j);
    assert tail[..j] == cs[onDisk..i] && tail[j..] == cs[i..];
    if i < |rs| {
      assert CodedAt(rs, cs, i);
      assert tail[..j + 1] == cs[onDisk..i + 1] && tail[j] == cs[i];
      var rest := buffer[|Concat(tail[..j])|..];
      assert rest == Concat(tail[j..]);
      assert rest[..|cs[i]|] == cs[i];
      FieldsOf(rs[i], cs[i], rest);
    }
  }

  lemma FieldsOf(r: WalRecord, c: seq<int>, bs: seq<int>)
    requires BytesOf(r, c) && |bs| >= |c| && bs[..|c|] == c
    ensures LOG_HEADER_SIZE <= |c|
    ensures UIntAt(bs, OFFSET_TOT_LEN, 4) == |c| && Int32At(bs, OFFSET_LSN) == r.h.lsn
  {
    SplitRecord(r, bs);
    HeaderBack(r, bs);
  }

  /** After a crash that keeps any part of the file, reading it gives the first records appended, in the order of
      their numbers, and all that were flushed if nothing is lost. */
  lemma CrashReadsPrefix(rs: seq<WalRecord>, cs: seq<seq<int>>, onDisk: nat, k: nat)
    requires Coded(rs, cs) && onDisk <= |rs| && k <= |Concat(cs[..onDisk])|
    ensures var logs := ReadWith(NextRecord, Concat(cs[..onDisk])[..k]);
      && |logs| == WholeWithin(cs[..onDisk], k) && logs == rs[..|logs|]
      && (k == |Concat(cs[..onDisk])| ==> |logs| == onDisk)
  {
    var front, chunks := rs[..onDisk], cs[..onDisk];
    forall i | 0 <= i < onDisk ensures UnderstandsAt(NextRecord, front, chunks, i) {
      assert CodedAt(rs, cs, i);
      RecordUnderstood(rs[i]);
    }
    PrefixReads(NextRecord, front, chunks, k);
    WholeWithinIs(chunks, k);
    var m := WholeWithin(chunks, k);
    assert front[..m] == rs[..m];
    ConcatAt(chunks, if m < onDisk then m + 1 else m);
  }
}
