/** The bytes of the write-ahead log: six kinds of records behind a header of twenty bytes. */
module LogFormat {
  import opened Rids
  import K = KeyOrder

  // ---------- integers ----------

  function EncodeLE(u: nat, n: nat): (b: seq<int>)
    ensures |b| == n
  {
    if n == 0 then [] else [u % 256] + EncodeLE(u / 256, n - 1)
  }

  function DecodeLE(b: seq<int>): int
  {
    if b == [] then 0 else b[0] + 256 * DecodeLE(b[1..])
  }

  lemma {:induction false} LEBack(u: nat, n: nat)
    requires u < K.Pow256(n)
    ensures DecodeLE(EncodeLE(u, n)) == u
  {
    if n > 0 {
      LEBack(u / 256, n - 1);
      assert EncodeLE(u, n)[1..] == EncodeLE(u / 256, n - 1);
    }
  }

  predicate IsInt32(n: int)
  {
    -0x8000_0000 <= n < 0x8000_0000
  }

  function Encode32(n: int): (b: seq<int>)
    requires IsInt32(n)
    ensures |b| == 4
  {
    EncodeLE(if n < 0 then n + 0x1_0000_0000 else n, 4)
  }

  function Signed32(u: int): int
  {
    if u >= 0x8000_0000 then u - 0x1_0000_0000 else u
  }

  predicate Has(bs: seq<int>, at: int, n: int)
  {
    0 <= at && 0 <= n && at + n <= |bs|
  }

  function UIntAt(bs: seq<int>, at: int, n: nat): int
    requires Has(bs, at, n)
  {
    DecodeLE(bs[at..at + n])
  }

  function Int32At(bs: seq<int>, at: int): int
    requires Has(bs, at, 4)
  {
    Signed32(UIntAt(bs, at, 4))
  }

  lemma Pow256Small()
    ensures K.Pow256(4) == 0x1_0000_0000 && K.Pow256(8) == 0x1_0000_0000_0000_0000
  {
    assert K.Pow256(2) == 0x1_0000;
    assert K.Pow256(6) == 256 * 256 * K.Pow256(4);
  }

  /** What was written at a place is read there. */
  lemma ReadBack(bs: seq<int>, at: nat, field: seq<int>)
    requires at + |field| <= |bs| && bs[at..at + |field|] == field
    ensures forall n :: IsInt32(n) && field == Encode32(n) ==> Int32At(bs, at) == n
    ensures forall u: nat :: u < 0x1_0000_0000_0000_0000 && field == EncodeLE(u, 8) ==> UIntAt(bs, at, 8) == u
    ensures forall u: nat :: u < 0x1_0000_0000 && field == EncodeLE(u, 4) ==> UIntAt(bs, at, 4) == u
  {
    Pow256Small();
    forall n | IsInt32(n) && field == Encode32(n) ensures Int32At(bs, at) == n {
      LEBack(if n < 0 then n + 0x1_0000_0000 else n, 4);
    }
    forall u: nat | u < 0x1_0000_0000_0000_0000 && field == EncodeLE(u, 8) ensures UIntAt(bs, at, 8) == u {
      LEBack(u, 8);
    }
    forall u: nat | u < 0x1_0000_0000 && field == EncodeLE(u, 4) ensures UIntAt(bs, at, 4) == u {
      LEBack(u, 4);
    }
  }

  // ---------- records ----------

  const INVALID_LSN := -1
  const LOG_HEADER_SIZE := 20
  const OFFSET_LSN := 4
  const OFFSET_TOT_LEN := 8
  const OFFSET_TID := 12
  const OFFSET_PREV_LSN := 16

  datatype Header = Header(lsn: int, tid: int, prev: int)

  datatype WalRecord =
    | WalUpdate(h: Header, before: seq<int>, after: seq<int>, rid: Rid, name: seq<int>)
    | WalInsert(h: Header, value: seq<int>, rid: Rid, name: seq<int>)
    | WalDelete(h: Header, value: seq<int>, rid: Rid, name: seq<int>)
    | WalBegin(h: Header)
    | WalCommit(h: Header)
    | WalAbort(h: Header)

  function TypeCode(r: WalRecord): int
  {
    match r
    case WalUpdate(_, _, _, _, _) => 0
    case WalInsert(_, _, _, _) => 1
    case WalDelete(_, _, _, _) => 2
    case WalBegin(_) => 3
    case WalCommit(_) => 4
    case WalAbort(_) => 5
  }

  /** log_tot_len_ as the constructors add it up. */
  function TotLen(r: WalRecord): nat
  {
    match r
    case WalUpdate(_, before, after, _, name) => LOG_HEADER_SIZE + 4 + |before| + 4 + |after| + 8 + 8 + |name|
    case WalInsert(_, value, _, name) => LOG_HEADER_SIZE + 4 + |value| + 8 + 8 + |name|
    case WalDelete(_, value, _, name) => LOG_HEADER_SIZE + 4 + |value| + 8 + 8 + |name|
    case _ => LOG_HEADER_SIZE
  }

  predicate RidFits(rid: Rid)
  {
    IsInt32(rid.page) && IsInt32(rid.slot)
  }

  /** Every field has a value of its width. */
  predicate RecordFits(r: WalRecord)
  {
    && IsInt32(r.h.lsn) && IsInt32(r.h.tid) && IsInt32(r.h.prev) && TotLen(r) < 0x8000_0000
    && (r.WalUpdate? || r.WalInsert? || r.WalDelete? ==> RidFits(r.rid))
  }

  function EncodeHeader(r: WalRecord): (b: seq<int>)
    requires RecordFits(r)
    ensures |b| == LOG_HEADER_SIZE
  {
    Encode32(TypeCode(r)) + Encode32(r.h.lsn) + EncodeLE(TotLen(r), 4) + Encode32(r.h.tid) + Encode32(r.h.prev)
  }

  function EncodeRid(rid: Rid): (b: seq<int>)
    requires RidFits(rid)
    ensures |b| == 8
  {
    Encode32(rid.page) + Encode32(rid.slot)
  }

  function EncodeValue(v: seq<int>): (b: seq<int>)
    requires IsInt32(|v|)
    ensures |b| == 4 + |v|
  {
    Encode32(|v|) + v
  }

  /** A place and the table's name, which end every record that changes a row. */
  function EncodeTarget(rid: Rid, name: seq<int>): (b: seq<int>)
    requires RidFits(rid)
    ensures |b| == 16 + |name|
  {
    EncodeRid(rid) + EncodeLE(|name|, 8) + name
  }

  function EncodeBody(r: WalRecord): (b: seq<int>)
    requires RecordFits(r)
    ensures |b| == TotLen(r) - LOG_HEADER_SIZE
  {
    match r
    case WalUpdate(_, before, after, rid, name) => EncodeValue(before) + EncodeValue(after) + EncodeTarget(rid, name)
    case WalInsert(_, value, rid, name) => EncodeValue(value) + EncodeTarget(rid, name)
    case WalDelete(_, value, rid, name) => EncodeValue(value) + EncodeTarget(rid, name)
    case _ => []
  }

  function Serialize(r: WalRecord): (b: seq<int>)
    requires RecordFits(r)
    ensures |b| == TotLen(r)
  {
    EncodeHeader(r) + EncodeBody(r)
  }

  // ---------- reading ----------

  datatype Option<T> = None | Some(v: T)
  datatype Field<T> = Field(v: T, end: int)

  /** A size and as many bytes. */
  function ValueAt(bs: seq<int>, at: int): Option<Field<seq<int>>>
  {
    if !Has(bs, at, 4) then None
    else
      var n := Int32At(bs, at);
      if !Has(bs, at + 4, n) then None else Some(Field(bs[at + 4..at + 4 + n], at + 4 + n))
  }

  datatype Target = Target(rid: Rid, name: seq<int>)

  function TargetAt(bs: seq<int>, at: int): Option<Target>
  {
    if !Has(bs, at, 16) then None
    else
      var n := UIntAt(bs, at + 8, 8);
      if !Has(bs, at + 16, n) then None
      else Some(Target(Rid(Int32At(bs, at), Int32At(bs, at + 4)), bs[at + 16..at + 16 + n]))
  }

  function HeaderAt(bs: seq<int>): Header
    requires |bs| >= LOG_HEADER_SIZE
  {
    Header(Int32At(bs, OFFSET_LSN), Int32At(bs, OFFSET_TID), Int32At(bs, OFFSET_PREV_LSN))
  }

  /** Builds a record of the kind the type field names, or none for any other value. */
  function ParseLogRecord(bs: seq<int>): Option<WalRecord>
    requires |bs| >= LOG_HEADER_SIZE
  {
    var h, code := HeaderAt(bs), Int32At(bs, 0);
    if code == 3 then Some(WalBegin(h))
    else if code == 4 then Some(WalCommit(h))
    else if code == 5 then Some(WalAbort(h))
    else if code < 0 || code > 5 then None
    else
      var a := ValueAt(bs, LOG_HEADER_SIZE);
      if a.None? then None
      else if code == 0 then
        var b := ValueAt(bs, a.v.end);
        if b.None? then None
        else
          var t := TargetAt(bs, b.v.end);
          if t.None? then None else Some(WalUpdate(h, a.v.v, b.v.v, t.v.rid, t.v.name))
      else
        var t := TargetAt(bs, a.v.end);
        if t.None? then None
        else if code == 1 then Some(WalInsert(h, a.v.v, t.v.rid, t.v.name))
        else Some(WalDelete(h, a.v.v, t.v.rid, t.v.name))
  }

  // ---------- writing and reading back ----------

  lemma Slice(bs: seq<int>, at: nat, w: seq<int>, i: nat, j: nat)
    requires at + |w| <= |bs| && bs[at..at + |w|] == w && i <= j <= |w|
    ensures bs[at + i..at + j] == w[i..j]
  {
    forall k | 0 <= k < j - i ensures bs[at + i..at + j][k] == w[i..j][k] {
      assert bs[at..at + |w|][i + k] == w[i + k];
    }
  }

  lemma Parts(a: seq<int>, b: seq<int>, c: seq<int>)
    ensures var w := a + b + c; w[0..|a|] == a && w[|a|..|a| + |b|] == b && w[|a| + |b|..|w|] == c
  {}

  lemma HeaderBack(r: WalRecord, bs: seq<int>)
    requires RecordFits(r) && |bs| >= LOG_HEADER_SIZE && bs[..LOG_HEADER_SIZE] == EncodeHeader(r)
    ensures HeaderAt(bs) == r.h && Int32At(bs, 0) == TypeCode(r) && UIntAt(bs, OFFSET_TOT_LEN, 4) == TotLen(r)
  {
    var e := EncodeHeader(r);
    assert bs[0..4] == e[0..4] == Encode32(TypeCode(r));
    assert bs[4..8] == e[4..8] == Encode32(r.h.lsn);
    assert bs[8..12] == e[8..12] == EncodeLE(TotLen(r), 4);
    assert bs[12..16] == e[12..16] == Encode32(r.h.tid);
    assert bs[16..20] == e[16..20] == Encode32(r.h.prev);
    ReadBack(bs, 0, Encode32(TypeCode(r)));
    ReadBack(bs, 4, Encode32(r.h.lsn));
    ReadBack(bs, 8, EncodeLE(TotLen(r), 4));
    ReadBack(bs, 12, Encode32(r.h.tid));
    ReadBack(bs, 16, Encode32(r.h.prev));
  }

  lemma ValueBack(bs: seq<int>, at: nat, v: seq<int>)
    requires IsInt32(|v|) && at + 4 + |v| <= |bs| && bs[at..at + 4 + |v|] == EncodeValue(v)
    ensures ValueAt(bs, at) == Some(Field(v, at + 4 + |v|))
  {
    var e := EncodeValue(v);
    Parts(Encode32(|v|), v, []);
    Slice(bs, at, e, 0, 4);
    Slice(bs, at, e, 4, |e|);
    ReadBack(bs, at, Encode32(|v|));
  }

  lemma TargetBack(bs: seq<int>, at: nat, rid: Rid, name: seq<int>)
    requires RidFits(rid) && |name| < 0x1_0000_0000_0000_0000
    requires at + 16 + |name| <= |bs| && bs[at..at + 16 + |name|] == EncodeTarget(rid, name)
    ensures TargetAt(bs, at) == Some(Target(rid, name))
  {
    var e := EncodeTarget(rid, name);
    Parts(Encode32(rid.page), Encode32(rid.slot), []);
    Parts(EncodeRid(rid), EncodeLE(|name|, 8), name);
    Slice(e, 0, EncodeRid(rid), 0, 4);
    Slice(e, 0, EncodeRid(rid), 4, 8);
    Slice(bs, at, e, 0, 4);
    Slice(bs, at, e, 4, 8);
    Slice(bs, at, e, 8, 16);
    Slice(bs, at, e, 16, |e|);
    ReadBack(bs, at, Encode32(rid.page));
    ReadBack(bs, at + 4, Encode32(rid.slot));
    ReadBack(bs, at + 8, EncodeLE(|name|, 8));
  }

  /** Every record is read back from its own bytes, whatever follows them. */
  lemma ParseBack(r: WalRecord, bs: seq<int>)
    requires RecordFits(r) && |bs| >= TotLen(r) && bs[..TotLen(r)] == Serialize(r)
    ensures UIntAt(bs, OFFSET_TOT_LEN, 4) == TotLen(r) && ParseLogRecord(bs) == Some(r)
  {
    SplitRecord(r, bs);
    HeaderBack(r, bs);
    BodyBack(r, bs);
  }

  /** Four bytes, least significant first. */
  lemma FourBytes(a: int, b: int, c: int, d: int)
    ensures DecodeLE([a, b, c, d]) == a + 256 * b + 65536 * c + 16777216 * d
  {
    assert [a, b, c, d][1..] == [b, c, d] && [b, c, d][1..] == [c, d] && [c, d][1..] == [d] && [d][1..] == [];
    assert DecodeLE([d]) == d + 256 * DecodeLE([]);
    assert DecodeLE([c, d]) == c + 256 * DecodeLE([d]);
  }

  /** The header, byte by byte: kind, number, length, transaction, previous number, four bytes each. */
  lemma HeaderLayout(r: WalRecord)
    requires RecordFits(r)
    ensures var b := Serialize(r);
      && |b| == TotLen(r) >= 20
      && Int32At(b, 0) == (if r.WalUpdate? then 0 else if r.WalInsert? then 1 else if r.WalDelete? then 2
                           else if r.WalBegin? then 3 else if r.WalCommit? then 4 else 5)
      && Int32At(b, 4) == r.h.lsn && UIntAt(b, 8, 4) == |b| && Int32At(b, 12) == r.h.tid && Int32At(b, 16) == r.h.prev
  {
    var b := Serialize(r);
    assert b[..LOG_HEADER_SIZE] == EncodeHeader(r);
    HeaderBack(r, b);
  }

  lemma ValueAtMeans(bs: seq<int>, at: int, v: seq<int>, end: int)
    requires ValueAt(bs, at) == Some(Field(v, end))
    ensures Has(bs, at, 4) && Int32At(bs, at) == |v| && end == at + 4 + |v| && Has(bs, at + 4, |v|)
    ensures bs[at + 4..at + 4 + |v|] == v
  {}

  lemma TargetAtMeans(bs: seq<int>, at: int, t: Target)
    requires TargetAt(bs, at) == Some(t)
    ensures Has(bs, at, 16) && Int32At(bs, at) == t.rid.page && Int32At(bs, at + 4) == t.rid.slot
    ensures UIntAt(bs, at + 8, 8) == |t.name| && Has(bs, at + 16, |t.name|)
    ensures bs[at + 16..at + 16 + |t.name|] == t.name
  {}

  /** After the header a value stands with its length before it; then the place, and the name with its length. */
  lemma ValueLayout(r: WalRecord)
    requires RecordFits(r) && (r.WalInsert? || r.WalDelete?)
    ensures var b, n := Serialize(r), |r.value|;
      && |b| == 20 + 4 + n + 16 + |r.name|
      && Int32At(b, 20) == n && b[24..24 + n] == r.value
      && Int32At(b, 24 + n) == r.rid.page && Int32At(b, 28 + n) == r.rid.slot
      && UIntAt(b, 32 + n, 8) == |r.name| && b[40 + n..40 + n + |r.name|] == r.name
  {
    var b, n := Serialize(r), |r.value|;
    assert b[..TotLen(r)] == b;
    SplitRecord(r, b);
    OneValueBack(b, EncodeBody(r), r.value, r.rid, r.name);
    ValueAtMeans(b, 20, r.value, 24 + n);
    TargetAtMeans(b, 24 + n, Target(r.rid, r.name));
  }

  /** An update has the old value first and the new one after it. */
  lemma UpdateLayout(r: WalRecord)
    requires RecordFits(r) && r.WalUpdate?
    ensures var b, n, m := Serialize(r), |r.before|, |r.after|;
      && |b| == 20 + 4 + n + 4 + m + 16 + |r.name|
      && Int32At(b, 20) == n && b[24..24 + n] == r.before
      && Int32At(b, 24 + n) == m && b[28 + n..28 + n + m] == r.after
      && Int32At(b, 28 + n + m) == r.rid.page && Int32At(b, 32 + n + m) == r.rid.slot
      && UIntAt(b, 36 + n + m, 8) == |r.name| && b[44 + n + m..44 + n + m + |r.name|] == r.name
  {
    var b, n, m := Serialize(r), |r.before|, |r.after|;
    assert b[..TotLen(r)] == b;
    SplitRecord(r, b);
    TwoValuesBack(b, EncodeBody(r), r.before, r.after, r.rid, r.name);
    ValueAtMeans(b, 20, r.before, 24 + n);
    ValueAtMeans(b, 24 + n, r.after, 28 + n + m);
    TargetAtMeans(b, 28 + n + m, Target(r.rid, r.name));
  }

  lemma BodyBack(r: WalRecord, bs: seq<int>)
    requires RecordFits(r) && |bs| >= TotLen(r) && bs[LOG_HEADER_SIZE..TotLen(r)] == EncodeBody(r)
    requires HeaderAt(bs) == r.h && Int32At(bs, 0) == TypeCode(r)
    ensures ParseLogRecord(bs) == Some(r)
  {
    match r
    case WalUpdate(_, before, after, rid, name) =>
      TwoValuesBack(bs, EncodeBody(r), before, after, rid, name);
      ParsesUpdate(bs, r);
    case WalInsert(_, value, rid, name) =>
      OneValueBack(bs, EncodeBody(r), value, rid, name);
      ParsesValue(bs, r);
    case WalDelete(_, value, rid, name) =>
      OneValueBack(bs, EncodeBody(r), value, rid, name);
      ParsesValue(bs, r);
    case _ =>
  }

  lemma ParsesUpdate(bs: seq<int>, r: WalRecord)
    requires |bs| >= LOG_HEADER_SIZE && HeaderAt(bs) == r.h && r.WalUpdate? && Int32At(bs, 0) == 0
    requires var a := LOG_HEADER_SIZE + 4 + |r.before|;
      && ValueAt(bs, LOG_HEADER_SIZE) == Some(Field(r.before, a))
      && ValueAt(bs, a) == Some(Field(r.after, a + 4 + |r.after|))
      && TargetAt(bs, a + 4 + |r.after|) == Some(Target(r.rid, r.name))
    ensures ParseLogRecord(bs) == Some(r)
  {}

  lemma ParsesValue(bs: seq<int>, r: WalRecord)
    requires |bs| >= LOG_HEADER_SIZE && HeaderAt(bs) == r.h
    requires (r.WalInsert? && Int32At(bs, 0) == 1) || (r.WalDelete? && Int32At(bs, 0) == 2)
    requires ValueAt(bs, LOG_HEADER_SIZE) == Some(Field(r.value, LOG_HEADER_SIZE + 4 + |r.value|))
    requires TargetAt(bs, LOG_HEADER_SIZE + 4 + |r.value|) == Some(Target(r.rid, r.name))
    ensures ParseLogRecord(bs) == Some(r)
  {}

  lemma SplitRecord(r: WalRecord, bs: seq<int>)
    requires RecordFits(r) && |bs| >= TotLen(r) && bs[..TotLen(r)] == Serialize(r)
    ensures bs[..LOG_HEADER_SIZE] == EncodeHeader(r) && bs[LOG_HEADER_SIZE..TotLen(r)] == EncodeBody(r)
  {
    var e := Serialize(r);
    assert bs[..LOG_HEADER_SIZE] == bs[..TotLen(r)][..LOG_HEADER_SIZE] == e[..LOG_HEADER_SIZE];
    assert bs[LOG_HEADER_SIZE..TotLen(r)] == bs[..TotLen(r)][LOG_HEADER_SIZE..] == e[LOG_HEADER_SIZE..];
  }

  lemma TwoValuesBack(bs: seq<int>, body: seq<int>, before: seq<int>, after: seq<int>, rid: Rid, name: seq<int>)
    requires IsInt32(|before|) && IsInt32(|after|) && RidFits(rid) && |name| < 0x8000_0000
    requires body == EncodeValue(before) + EncodeValue(after) + EncodeTarget(rid, name)
    requires |bs| >= LOG_HEADER_SIZE + |body| && bs[LOG_HEADER_SIZE..LOG_HEADER_SIZE + |body|] == body
    ensures var a := LOG_HEADER_SIZE + 4 + |before|;
      && ValueAt(bs, LOG_HEADER_SIZE) == Some(Field(before, a))
      && ValueAt(bs, a) == Some(Field(after, a + 4 + |after|))
      && TargetAt(bs, a + 4 + |after|) == Some(Target(rid, name))
  {
    var i, j := 4 + |before|, 8 + |before| + |after|;
    var a, b := LOG_HEADER_SIZE + i, LOG_HEADER_SIZE + j;
    Parts(EncodeValue(before), EncodeValue(after), EncodeTarget(rid, name));
    Slice(bs, LOG_HEADER_SIZE, body, 0, i);
    Slice(bs, LOG_HEADER_SIZE, body, i, j);
    Slice(bs, LOG_HEADER_SIZE, body, j, |body|);
    ValueBack(bs, LOG_HEADER_SIZE, before);
    ValueBack(bs, a, after);
    TargetBack(bs, b, rid, name);
  }

  lemma OneValueBack(bs: seq<int>, body: seq<int>, value: seq<int>, rid: Rid, name: seq<int>)
    requires IsInt32(|value|) && RidFits(rid) && |name| < 0x8000_0000
    requires body == EncodeValue(value) + EncodeTarget(rid, name)
    requires |bs| >= LOG_HEADER_SIZE + |body| && bs[LOG_HEADER_SIZE..LOG_HEADER_SIZE + |body|] == body
    ensures ValueAt(bs, LOG_HEADER_SIZE) == Some(Field(value, LOG_HEADER_SIZE + 4 + |value|))
    ensures TargetAt(bs, LOG_HEADER_SIZE + 4 + |value|) == Some(Target(rid, name))
  {
    var a := LOG_HEADER_SIZE + 4 + |value|;
    Parts(EncodeValue(value), EncodeTarget(rid, name), []);
    Slice(bs, LOG_HEADER_SIZE, body, 0, 4 + |value|);
    Slice(bs, LOG_HEADER_SIZE, body, 4 + |value|, |body|);
    ValueBack(bs, LOG_HEADER_SIZE, value);
    TargetBack(bs, a, rid, name);
  }
}
