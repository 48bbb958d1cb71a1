/** Composite index keys, the order the index compares them in, and a number for each key in that order. */
module KeyOrder {
  datatype ColType = Int | BigInt | DateTime | Str(len: nat)

  /** A column's value: a number, or the fixed-length bytes of a string. */
  datatype Value = Num(n: int) | Bytes(b: seq<int>)

  function Low(ty: ColType): int
  {
    match ty
    case Int => -0x8000_0000
    case BigInt => -0x8000_0000_0000_0000
    case DateTime => -0x8000_0000_0000_0000
    case Str(_) => 0
  }

  function Pow256(n: nat): (p: nat)
    ensures p > 0
  {
    if n == 0 then 1 else 256 * Pow256(n - 1)
  }

  /** How many values a column of this type has. */
  function Count(ty: ColType): (n: nat)
    ensures n > 0
  {
    match ty
    case Int => 0x1_0000_0000
    case BigInt => 0x1_0000_0000_0000_0000
    case DateTime => 0x1_0000_0000_0000_0000
    case Str(len) => Pow256(len)
  }

  predicate AreBytes(b: seq<int>)
  {
    forall i :: 0 <= i < |b| ==> 0 <= b[i] < 256
  }

  predicate HasType(v: Value, ty: ColType)
  {
    if ty.Str? then v.Bytes? && |v.b| == ty.len && AreBytes(v.b)
    else v.Num? && Low(ty) <= v.n < Low(ty) + Count(ty)
  }

  // ---------- comparing one column ----------

  /** memcmp over two byte strings of one length. */
  function MemCmp(a: seq<int>, b: seq<int>): int
    requires |a| == |b|
  {
    if a == [] then 0 else if a[0] != b[0] then a[0] - b[0] else MemCmp(a[1..], b[1..])
  }

  function Sign(x: int): int
  {
    if x < 0 then -1 else if x > 0 then 1 else 0
  }

  function IxCompareCol(a: Value, b: Value, ty: ColType): int
    requires HasType(a, ty) && HasType(b, ty)
  {
    if ty.Str? then MemCmp(a.b, b.b) else if a.n < b.n then -1 else if a.n > b.n then 1 else 0
  }

  function BytesRank(b: seq<int>): int
  {
    if b == [] then 0 else b[0] * Pow256(|b| - 1) + BytesRank(b[1..])
  }

  /** The place of a value among all values of its column. */
  function Rank(v: Value, ty: ColType): int
    requires HasType(v, ty)
  {
    if ty.Str? then BytesRank(v.b) else v.n - Low(ty)
  }

  /** The leading digit decides when the tails are below one unit of it. */
  lemma LeadingDigit(x: int, y: int, unit: int, r: int, s: int)
    requires 0 <= r < unit && 0 <= s < unit
    ensures x < y ==> x * unit + r < y * unit + s
    ensures x * unit + r == y * unit + s <==> x == y && r == s
  {
    if x < y {
      assert (x + 1) * unit <= y * unit;
      assert (x + 1) * unit == x * unit + unit;
    }
    if y < x {
      assert (y + 1) * unit <= x * unit;
      assert (y + 1) * unit == y * unit + unit;
    }
  }

  lemma {:induction false} BytesRankBound(b: seq<int>)
    requires AreBytes(b)
    ensures 0 <= BytesRank(b) < Pow256(|b|)
  {
    if b != [] {
      BytesRankBound(b[1..]);
      LeadingDigit(b[0], 256, Pow256(|b| - 1), BytesRank(b[1..]), 0);
      LeadingDigit(-1, b[0], Pow256(|b| - 1), 0, BytesRank(b[1..]));
      assert b[0] * Pow256(|b| - 1) >= 0;
    }
  }

  lemma {:induction false} MemCmpIsRank(a: seq<int>, b: seq<int>)
    requires |a| == |b| && AreBytes(a) && AreBytes(b)
    ensures Sign(MemCmp(a, b)) == Sign(BytesRank(a) - BytesRank(b))
    ensures BytesRank(a) == BytesRank(b) <==> a == b
  {
    if a != [] {
      MemCmpIsRank(a[1..], b[1..]);
      BytesRankBound(a[1..]);
      BytesRankBound(b[1..]);
      var unit := Pow256(|a| - 1);
      LeadingDigit(a[0], b[0], unit, BytesRank(a[1..]), BytesRank(b[1..]));
      LeadingDigit(b[0], a[0], unit, BytesRank(b[1..]), BytesRank(a[1..]));
      assert a == [a[0]] + a[1..] && b == [b[0]] + b[1..];
    }
  }

  lemma RankOrders(a: Value, b: Value, ty: ColType)
    requires HasType(a, ty) && HasType(b, ty)
    ensures 0 <= Rank(a, ty) < Count(ty)
    ensures Sign(IxCompareCol(a, b, ty)) == Sign(Rank(a, ty) - Rank(b, ty))
    ensures Rank(a, ty) == Rank(b, ty) <==> a == b
  {
    if ty.Str? {
      BytesRankBound(a.b);
      MemCmpIsRank(a.b, b.b);
    }
  }

  /** Byte strings compare by the first byte in which they differ. */
  lemma {:induction false} MemCmpMeans(a: seq<int>, b: seq<int>)
    requires |a| == |b|
    ensures MemCmp(a, b) < 0 <==> exists i :: 0 <= i < |a| && a[..i] == b[..i] && a[i] < b[i]
    ensures MemCmp(a, b) == 0 <==> a == b
  {
    if a != [] {
      MemCmpMeans(a[1..], b[1..]);
      assert a == [a[0]] + a[1..] && b == [b[0]] + b[1..];
      if a[0] == b[0] {
        FirstDifference(a, b);
      } else if a[0] < b[0] {
        assert a[..0] == b[..0];
      } else {
        forall i | 0 <= i < |a| ensures !(a[..i] == b[..i] && a[i] < b[i]) {
          assert i > 0 ==> a[..i][0] == a[0] && b[..i][0] == b[0];
        }
      }
    }
  }

  lemma FirstDifference(a: seq<int>, b: seq<int>)
    requires |a| == |b| > 0 && a[0] == b[0]
    ensures (exists i :: 0 <= i < |a| && a[..i] == b[..i] && a[i] < b[i]) <==>
      exists i :: 0 <= i < |a[1..]| && a[1..][..i] == b[1..][..i] && a[1..][i] < b[1..][i]
  {
    var c, d := a[1..], b[1..];
    forall i | 0 <= i < |c| ensures a[..i + 1] == [a[0]] + c[..i] && b[..i + 1] == [b[0]] + d[..i] {}
    if exists i :: 0 <= i < |c| && c[..i] == d[..i] && c[i] < d[i] {
      var i :| 0 <= i < |c| && c[..i] == d[..i] && c[i] < d[i];
      assert a[..i + 1] == b[..i + 1] && a[i + 1] < b[i + 1];
    }
    if exists i :: 0 <= i < |a| && a[..i] == b[..i] && a[i] < b[i] {
      var i :| 0 <= i < |a| && a[..i] == b[..i] && a[i] < b[i];
      assert i > 0;
      assert c[..i - 1] == a[..i][1..] && d[..i - 1] == b[..i][1..];
      assert c[i - 1] < d[i - 1];
    }
  }

  /** Numbers compare as numbers, strings byte by byte. */
  lemma CompareColMeans(a: Value, b: Value, ty: ColType)
    requires HasType(a, ty) && HasType(b, ty)
    ensures !ty.Str? ==> (IxCompareCol(a, b, ty) < 0 <==> a.n < b.n) && (IxCompareCol(a, b, ty) == 0 <==> a.n == b.n)
    ensures ty.Str? ==>
      (IxCompareCol(a, b, ty) < 0 <==> exists i :: 0 <= i < ty.len && a.b[..i] == b.b[..i] && a.b[i] < b.b[i])
    ensures ty.Str? ==> (IxCompareCol(a, b, ty) == 0 <==> a.b == b.b)
  {
    if ty.Str? {
      MemCmpMeans(a.b, b.b);
    }
  }

  // ---------- the values used to pad a range ----------

  function MinValue(ty: ColType): Value
  {
    if ty.Str? then Bytes(seq(ty.len, _ => 0)) else Num(Low(ty))
  }

  function MaxValue(ty: ColType): Value
  {
    if ty.Str? then Bytes(seq(ty.len, _ => 0xFF)) else Num(Low(ty) + Count(ty) - 1)
  }

  lemma {:induction false} RepeatRank(n: nat)
    ensures BytesRank(seq(n, _ => 0)) == 0 && BytesRank(seq(n, _ => 0xFF)) == Pow256(n) - 1
  {
    if n > 0 {
      RepeatRank(n - 1);
      assert seq(n, _ => 0)[1..] == seq(n - 1, _ => 0);
      assert seq(n, _ => 0xFF)[1..] == seq(n - 1, _ => 0xFF);
    }
  }

  /** The padding values are the first and the last of the column. */
  lemma PaddingIsExtreme(ty: ColType)
    ensures HasType(MinValue(ty), ty) && Rank(MinValue(ty), ty) == 0
    ensures HasType(MaxValue(ty), ty) && Rank(MaxValue(ty), ty) == Count(ty) - 1
    ensures ty.Int? ==> MinValue(ty) == Num(-2147483648) && MaxValue(ty) == Num(2147483647)
    ensures ty.BigInt? || ty.DateTime? ==>
      MinValue(ty) == Num(-9223372036854775808) && MaxValue(ty) == Num(9223372036854775807)
    ensures ty.Str? ==>
      && |MinValue(ty).b| == |MaxValue(ty).b| == ty.len
      && forall i :: 0 <= i < ty.len ==> MinValue(ty).b[i] == 0 && MaxValue(ty).b[i] == 255
  {
    if ty.Str? {
      RepeatRank(ty.len);
    }
  }

  // ---------- tuples of ranks ----------

  /** How many keys there are over columns of these sizes. */
  function Volume(sizes: seq<nat>): nat
  {
    if sizes == [] then 1 else sizes[0] * Volume(sizes[1..])
  }

  predicate Fits(k: seq<int>, sizes: seq<nat>)
  {
    |k| == |sizes| && forall i :: 0 <= i < |k| ==> 0 <= k[i] < sizes[i]
  }

  /** The place of a key among all keys. */
  function Code(k: seq<int>, sizes: seq<nat>): int
    requires |k| == |sizes|
  {
    if k == [] then 0 else k[0] * Volume(sizes[1..]) + Code(k[1..], sizes[1..])
  }

  function LexCmp(a: seq<int>, b: seq<int>): int
    requires |a| == |b|
  {
    if a == [] then 0 else if a[0] != b[0] then Sign(a[0] - b[0]) else LexCmp(a[1..], b[1..])
  }

  lemma {:induction false} CodeBound(k: seq<int>, sizes: seq<nat>)
    requires Fits(k, sizes)
    ensures 0 <= Code(k, sizes) < Volume(sizes)
  {
    if k != [] {
      CodeBound(k[1..], sizes[1..]);
      var unit := Volume(sizes[1..]);
      LeadingDigit(k[0], sizes[0], unit, Code(k[1..], sizes[1..]), 0);
      assert k[0] * unit >= 0;
    }
  }

  /** Numbering keys keeps their order and tells them apart. */
  lemma {:induction false} CodeOrders(a: seq<int>, b: seq<int>, sizes: seq<nat>)
    requires Fits(a, sizes) && Fits(b, sizes)
    ensures LexCmp(a, b) == Sign(Code(a, sizes) - Code(b, sizes))
    ensures Code(a, sizes) == Code(b, sizes) <==> a == b
  {
    if a != [] {
      CodeOrders(a[1..], b[1..], sizes[1..]);
      CodeBound(a[1..], sizes[1..]);
      CodeBound(b[1..], sizes[1..]);
      var unit, r, s := Volume(sizes[1..]), Code(a[1..], sizes[1..]), Code(b[1..], sizes[1..]);
      LeadingDigit(a[0], b[0], unit, r, s);
      LeadingDigit(b[0], a[0], unit, s, r);
      assert a == [a[0]] + a[1..] && b == [b[0]] + b[1..];
    }
  }

  // ---------- composite keys ----------

  predicate KeyHasTypes(k: seq<Value>, tys: seq<ColType>)
  {
    |k| == |tys| && forall i :: 0 <= i < |k| ==> HasType(k[i], tys[i])
  }

  function Sizes(tys: seq<ColType>): seq<nat>
  {
    seq(|tys|, i requires 0 <= i < |tys| => Count(tys[i]))
  }

  function Ranks(k: seq<Value>, tys: seq<ColType>): seq<int>
    requires KeyHasTypes(k, tys)
  {
    seq(|k|, i requires 0 <= i < |k| => Rank(k[i], tys[i]))
  }

  /** The number the tree model uses for a composite key. */
  function KeyCode(k: seq<Value>, tys: seq<ColType>): int
    requires KeyHasTypes(k, tys)
  {
    Code(Ranks(k, tys), Sizes(tys))
  }

  lemma RanksFit(k: seq<Value>, tys: seq<ColType>)
    requires KeyHasTypes(k, tys)
    ensures Fits(Ranks(k, tys), Sizes(tys))
  {
    forall i | 0 <= i < |k| ensures 0 <= Ranks(k, tys)[i] < Sizes(tys)[i] {
      RankOrders(k[i], k[i], tys[i]);
    }
  }

  lemma {:induction false} LexSkip(a: seq<int>, b: seq<int>, i: nat)
    requires |a| == |b| && i <= |a| && a[..i] == b[..i]
    ensures LexCmp(a, b) == LexCmp(a[i..], b[i..])
  {
    if i > 0 {
      assert a[0] == a[..i][0] && b[0] == b[..i][0];
      assert a[1..][..i - 1] == a[..i][1..] && b[1..][..i - 1] == b[..i][1..];
      LexSkip(a[1..], b[1..], i - 1);
      assert a[1..][i - 1..] == a[i..] && b[1..][i - 1..] == b[i..];
    }
  }

  /** Columns are compared from the first on until two differ: this is the order of the keys' numbers, and the
      result is zero exactly for equal keys. */
  method IxCompare(a: seq<Value>, b: seq<Value>, tys: seq<ColType>) returns (res: int)
    requires KeyHasTypes(a, tys) && KeyHasTypes(b, tys)
    ensures Sign(res) == Sign(KeyCode(a, tys) - KeyCode(b, tys))
    ensures res == 0 <==> a == b
  {
    ghost var ra, rb := Ranks(a, tys), Ranks(b, tys);
    RanksFit(a, tys);
    RanksFit(b, tys);
    CodeOrders(ra, rb, Sizes(tys));
    for i := 0 to |tys|
      invariant a[..i] == b[..i] && ra[..i] == rb[..i]
    {
      res := IxCompareCol(a[i], b[i], tys[i]);
      RankOrders(a[i], b[i], tys[i]);
      if res != 0 {
        LexSkip(ra, rb, i);
        return res;
      }
      assert a[..i + 1] == a[..i] + [a[i]] && b[..i + 1] == b[..i] + [b[i]];
      assert ra[..i + 1] == ra[..i] + [ra[i]] && rb[..i + 1] == rb[..i] + [rb[i]];
    }
    assert a == b by {
      assert a[..|a|] == a && b[..|b|] == b;
    }
    return 0;
  }
}
