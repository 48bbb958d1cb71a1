/** From the conditions of a scan to the two padded keys between which the index is read. */
module IndexRange {
  import opened KeyOrder
  import Q = Queries

  datatype Option = None | Some(v: int)

  /** What the conditions say about one index column. */
  datatype Bound = Bound(eq: Option, lower: Option, lowerIn: bool, upper: Option, upperIn: bool)

  const Unbounded := Bound(None, None, true, None, true)

  predicate LowerOk(b: Bound, v: int)
  {
    b.lower.None? || if b.lowerIn then b.lower.v <= v else b.lower.v < v
  }

  predicate UpperOk(b: Bound, v: int)
  {
    b.upper.None? || if b.upperIn then v <= b.upper.v else v < b.upper.v
  }

  predicate Between(b: Bound, v: int)
  {
    LowerOk(b, v) && UpperOk(b, v)
  }

  // ---------- conditions ----------

  function FirstIndex(cols: seq<string>, name: string): (i: nat)
    ensures i <= |cols|
    ensures i < |cols| ==> cols[i] == name
  {
    if cols == [] then 0 else if cols[0] == name then 0 else 1 + FirstIndex(cols[1..], name)
  }

  /** The condition bounds index column `i`. */
  predicate Bounds(tab: string, cols: seq<string>, c: Q.Cond, i: nat)
  {
    c.isVal && c.op != Q.NE && c.lhs.tab == tab && FirstIndex(cols, c.lhs.col) == i
  }

  /** Value `v` satisfies the order conditions among the first `n`. */
  ghost predicate OrderHolds(tab: string, cols: seq<string>, conds: seq<Q.Cond>, n: nat, i: nat, v: int)
    requires n <= |conds|
  {
    forall k :: 0 <= k < n && Bounds(tab, cols, conds[k], i) && conds[k].op != Q.EQ ==>
      Q.Compare(v, conds[k].op, conds[k].val)
  }

  ghost predicate HasEq(tab: string, cols: seq<string>, conds: seq<Q.Cond>, n: nat, i: nat)
    requires n <= |conds|
  {
    exists k :: 0 <= k < n && Bounds(tab, cols, conds[k], i) && conds[k].op == Q.EQ
  }

  /** An equality is one of the conditions; without one, exactly the values that satisfy every order condition
      lie between the bounds. */
  ghost predicate Collected(tab: string, cols: seq<string>, conds: seq<Q.Cond>, n: nat, i: nat, b: Bound)
    requires n <= |conds|
  {
    && (b.eq.Some? <==> HasEq(tab, cols, conds, n, i))
    && (b.eq.Some? ==> EqIsCond(tab, cols, conds, n, i, b.eq.v))
    && (b.eq.None? ==> forall v :: Between(b, v) <==> OrderHolds(tab, cols, conds, n, i, v))
  }

  ghost predicate EqIsCond(tab: string, cols: seq<string>, conds: seq<Q.Cond>, n: nat, i: nat, v: int)
    requires n <= |conds|
  {
    exists k :: 0 <= k < n && Bounds(tab, cols, conds[k], i) && conds[k].op == Q.EQ && conds[k].val == v
  }

  /** One condition on its column. */
  function Tighten(b: Bound, op: Q.CompOp, v: int): Bound
  {
    match op
    case EQ => Bound(Some(v), Some(v), true, Some(v), true)
    case NE => b
    case GT => TightenLower(b, v, false)
    case GE => TightenLower(b, v, true)
    case LT => TightenUpper(b, v, false)
    case LE => TightenUpper(b, v, true)
  }

  function TightenLower(b: Bound, v: int, inclusive: bool): Bound
  {
    if b.lower.None? || v > b.lower.v || (v == b.lower.v && !inclusive && b.lowerIn)
    then b.(lower := Some(v), lowerIn := inclusive) else b
  }

  function TightenUpper(b: Bound, v: int, inclusive: bool): Bound
  {
    if b.upper.None? || v < b.upper.v || (v == b.upper.v && !inclusive && b.upperIn)
    then b.(upper := Some(v), upperIn := inclusive) else b
  }

  lemma TightenMeans(b: Bound, op: Q.CompOp, w: int, v: int)
    requires op != Q.EQ && op != Q.NE
    ensures Between(Tighten(b, op, w), v) <==> Between(b, v) && Q.Compare(v, op, w)
    ensures Tighten(b, op, w).eq == b.eq
  {}

  lemma CollectedNext(tab: string, cols: seq<string>, conds: seq<Q.Cond>, n: nat, i: nat, b: Bound)
    requires n < |conds| && Collected(tab, cols, conds, n, i, b)
    ensures Collected(tab, cols, conds, n + 1, i,
      if Bounds(tab, cols, conds[n], i) then Tighten(b, conds[n].op, conds[n].val) else b)
  {
    var c := conds[n];
    if Bounds(tab, cols, c, i) && c.op != Q.EQ {
      forall v ensures Between(Tighten(b, c.op, c.val), v) <==> Between(b, v) && Q.Compare(v, c.op, c.val) {
        TightenMeans(b, c.op, c.val, v);
      }
      assert Tighten(b, c.op, c.val).eq == b.eq;
    }
  }

  ghost predicate BoundFits(b: Bound, size: nat)
  {
    && size > 0
    && (b.eq.Some? ==> 0 <= b.eq.v < size)
    && (b.lower.Some? ==> 0 <= b.lower.v < size)
    && (b.upper.Some? ==> 0 <= b.upper.v < size)
  }

  /** Every value that can become a bound is a value of its column. */
  ghost predicate ValuesFit(tab: string, cols: seq<string>, sizes: seq<nat>, conds: seq<Q.Cond>)
  {
    && |cols| == |sizes| && (forall i :: 0 <= i < |sizes| ==> sizes[i] > 0)
    && forall k :: 0 <= k < |conds| ==> ValueFits(tab, cols, sizes, conds[k])
  }

  predicate ValueFits(tab: string, cols: seq<string>, sizes: seq<nat>, c: Q.Cond)
    requires |cols| == |sizes|
  {
    forall i :: 0 <= i < |cols| && Bounds(tab, cols, c, i) ==> 0 <= c.val < sizes[i]
  }

  method CollectBounds(tab: string, cols: seq<string>, sizes: seq<nat>, conds: seq<Q.Cond>) returns (bounds: seq<Bound>)
    requires ValuesFit(tab, cols, sizes, conds)
    ensures |bounds| == |cols|
    ensures forall i :: 0 <= i < |cols| ==> Collected(tab, cols, conds, |conds|, i, bounds[i])
    ensures BoundsFit(bounds, sizes)
  {
    bounds := seq(|cols|, _ => Unbounded);
    for n := 0 to |conds|
      invariant SoFar(tab, cols, sizes, conds, n, bounds)
    {
      var c := conds[n];
      ghost var was := bounds;
      if c.isVal && c.op != Q.NE && c.lhs.tab == tab {
        var i := FindColumn(cols, c.lhs.col);
        if i < |cols| {
          bounds := bounds[i := Tighten(bounds[i], c.op, c.val)];
        }
      }
      SoFarNext(tab, cols, sizes, conds, n, was, bounds);
    }
  }

  ghost predicate SoFar(tab: string, cols: seq<string>, sizes: seq<nat>, conds: seq<Q.Cond>, n: nat, bounds: seq<Bound>)
    requires n <= |conds|
  {
    && |bounds| == |cols| && BoundsFit(bounds, sizes)
    && forall i :: 0 <= i < |bounds| ==> Collected(tab, cols, conds, n, i, bounds[i])
  }

  lemma SoFarNext(tab: string, cols: seq<string>, sizes: seq<nat>, conds: seq<Q.Cond>, n: nat, was: seq<Bound>,
                  bounds: seq<Bound>)
    requires ValuesFit(tab, cols, sizes, conds) && n < |conds| && SoFar(tab, cols, sizes, conds, n, was)
    requires |bounds| == |was| && forall i :: 0 <= i < |bounds| ==>
      bounds[i] == if Bounds(tab, cols, conds[n], i) then Tighten(was[i], conds[n].op, conds[n].val) else was[i]
    ensures SoFar(tab, cols, sizes, conds, n + 1, bounds)
  {
    forall i | 0 <= i < |bounds|
      ensures BoundFits(bounds[i], sizes[i]) && Collected(tab, cols, conds, n + 1, i, bounds[i])
    {
      assert BoundFits(was[i], sizes[i]);
      CollectedNext(tab, cols, conds, n, i, was[i]);
    }
  }

  method FindColumn(cols: seq<string>, name: string) returns (i: nat)
    ensures i == FirstIndex(cols, name)
  {
    i := 0;
    while i < |cols| && cols[i] != name
      invariant i <= |cols| && FirstIndex(cols, name) == i + FirstIndex(cols[i..], name)
    {
      assert cols[i..][1..] == cols[i + 1..];
      i := i + 1;
    }
  }

  // ---------- padding ----------

  /** All the least values, or all the greatest. */
  ghost predicate Padded(t: seq<int>, sizes: seq<nat>, top: bool)
  {
    |t| == |sizes| && forall i :: 0 <= i < |t| ==> t[i] == Extreme(sizes[i], top)
  }

  function Extreme(size: int, top: bool): int
  {
    if top then size - 1 else 0
  }

  lemma {:induction false} PaddingBounds(t: seq<int>, k: seq<int>, sizes: seq<nat>, top: bool)
    requires Padded(t, sizes, top) && Fits(k, sizes)
    ensures if top then LexCmp(t, k) >= 0 && LexCmp(k, t) <= 0 else LexCmp(t, k) <= 0 && LexCmp(k, t) >= 0
  {
    if t != [] {
      PaddingBounds(t[1..], k[1..], sizes[1..], top);
    }
  }

  lemma {:induction false} Sandwich(lower: seq<int>, k: seq<int>, upper: seq<int>, p: nat)
    requires |lower| == |k| == |upper| && p <= |k| && lower[..p] == upper[..p]
    requires LexCmp(lower, k) <= 0 && LexCmp(k, upper) <= 0
    ensures k[..p] == lower[..p]
  {
    if p > 0 {
      assert lower[0] == lower[..p][0] && upper[0] == upper[..p][0];
      assert lower[1..][..p - 1] == lower[..p][1..] && upper[1..][..p - 1] == upper[..p][1..];
      Sandwich(lower[1..], k[1..], upper[1..], p - 1);
      assert k[..p] == [k[0]] + k[1..][..p - 1] && lower[..p] == [lower[0]] + lower[1..][..p - 1];
    }
  }

  /** An inclusive lower key is padded with the least values and an exclusive one with the greatest, so after
      an equal prefix only the column at `p` counts. */
  lemma LowerSide(lower: seq<int>, k: seq<int>, sizes: seq<nat>, p: nat, inclusive: bool)
    requires |lower| == |sizes| && Fits(k, sizes) && p < |k| && k[..p] == lower[..p]
    requires Padded(lower[p + 1..], sizes[p + 1..], !inclusive)
    ensures inclusive ==> (LexCmp(lower, k) <= 0 <==> lower[p] <= k[p])
    ensures !inclusive ==> (LexCmp(lower, k) < 0 <==> lower[p] < k[p])
  {
    LexSkip(lower, k, p);
    assert lower[p..][1..] == lower[p + 1..] && k[p..][1..] == k[p + 1..];
    PaddingBounds(lower[p + 1..], k[p + 1..], sizes[p + 1..], !inclusive);
  }

  lemma UpperSide(upper: seq<int>, k: seq<int>, sizes: seq<nat>, p: nat, inclusive: bool)
    requires |upper| == |sizes| && Fits(k, sizes) && p < |k| && k[..p] == upper[..p]
    requires Padded(upper[p + 1..], sizes[p + 1..], inclusive)
    ensures inclusive ==> (LexCmp(k, upper) <= 0 <==> k[p] <= upper[p])
    ensures !inclusive ==> (LexCmp(k, upper) < 0 <==> k[p] < upper[p])
  {
    LexSkip(k, upper, p);
    assert upper[p..][1..] == upper[p + 1..] && k[p..][1..] == k[p + 1..];
    PaddingBounds(upper[p + 1..], k[p + 1..], sizes[p + 1..], inclusive);
  }

  // ---------- the range ----------

  datatype Range = Range(used: bool, lower: seq<int>, upper: seq<int>, lowerIn: bool, upperIn: bool)

  predicate InKeys(r: Range, k: seq<int>)
    requires |r.lower| == |r.upper| == |k|
  {
    && (if r.lowerIn then LexCmp(r.lower, k) <= 0 else LexCmp(r.lower, k) < 0)
    && (if r.upperIn then LexCmp(k, r.upper) <= 0 else LexCmp(k, r.upper) < 0)
  }

  /** The leading columns fixed by equalities. */
  function EqPrefix(bounds: seq<Bound>): (p: nat)
    ensures p <= |bounds|
    ensures forall i :: 0 <= i < p ==> bounds[i].eq.Some?
    ensures p < |bounds| ==> bounds[p].eq.None?
  {
    if bounds == [] || bounds[0].eq.None? then 0 else 1 + EqPrefix(bounds[1..])
  }

  /** Equal on the fixed columns and between the bounds on the next. */
  ghost predicate InPrefix(bounds: seq<Bound>, k: seq<int>)
    requires |bounds| == |k|
  {
    var p := EqPrefix(bounds);
    && (forall i :: 0 <= i < p ==> k[i] == bounds[i].eq.v)
    && (p < |k| ==> Between(bounds[p], k[p]))
  }

  ghost predicate BoundsFit(bounds: seq<Bound>, sizes: seq<nat>)
  {
    |bounds| == |sizes| && forall i :: 0 <= i < |bounds| ==> BoundFits(bounds[i], sizes[i])
  }

  /** The keys agree with the equalities, then carry the bounds or the extreme values, then padding. */
  ghost predicate Shaped(bounds: seq<Bound>, sizes: seq<nat>, r: Range)
    requires |bounds| == |sizes|
  {
    var p := EqPrefix(bounds);
    && |r.lower| == |r.upper| == |bounds|
    && (forall i :: 0 <= i < p ==> r.lower[i] == r.upper[i] == bounds[i].eq.v)
    && (p < |bounds| ==>
      && r.lower[p] == (if bounds[p].lower.Some? then bounds[p].lower.v else Extreme(sizes[p], false))
      && r.lowerIn == (bounds[p].lower.None? || bounds[p].lowerIn)
      && r.upper[p] == (if bounds[p].upper.Some? then bounds[p].upper.v else Extreme(sizes[p], true))
      && r.upperIn == (bounds[p].upper.None? || bounds[p].upperIn)
      && Padded(r.lower[p + 1..], sizes[p + 1..], !r.lowerIn)
      && Padded(r.upper[p + 1..], sizes[p + 1..], r.upperIn))
    && (p == |bounds| ==> r.lowerIn && r.upperIn)
  }

  lemma AllFixed(bounds: seq<Bound>, sizes: seq<nat>, r: Range, k: seq<int>)
    requires |bounds| == |sizes| && Fits(k, sizes) && Shaped(bounds, sizes, r) && EqPrefix(bounds) == |bounds|
    ensures InKeys(r, k) <==> InPrefix(bounds, k)
  {
    assert r.lower == r.upper;
    if InKeys(r, k) {
      Sandwich(r.lower, k, r.upper, |k|);
      assert k[..|k|] == k && r.lower[..|k|] == r.lower;
    }
    if InPrefix(bounds, k) {
      assert k == r.lower;
      LexSkip(k, k, |k|);
    }
  }

  /** A key lies in the range exactly when it meets the bounds on the prefix the index can use. */
  lemma RangeIsPrefix(bounds: seq<Bound>, sizes: seq<nat>, r: Range, k: seq<int>)
    requires |bounds| == |sizes| && Fits(k, sizes) && Shaped(bounds, sizes, r)
    ensures InKeys(r, k) <==> InPrefix(bounds, k)
  {
    var p := EqPrefix(bounds);
    if p == |bounds| {
      AllFixed(bounds, sizes, r, k);
    } else {
      assert r.lower[..p] == r.upper[..p];
      if InKeys(r, k) {
        Sandwich(r.lower, k, r.upper, p);
        forall i | 0 <= i < p ensures k[i] == bounds[i].eq.v {
          assert k[i] == k[..p][i] && r.lower[i] == r.lower[..p][i];
        }
      }
      if forall i :: 0 <= i < p ==> k[i] == bounds[i].eq.v {
        assert k[..p] == r.lower[..p];
        LowerSide(r.lower, k, sizes, p, r.lowerIn);
        UpperSide(r.upper, k, sizes, p, r.upperIn);
      }
    }
  }

  // ---------- building it ----------

  lemma {:induction false} EqPrefixIs(bounds: seq<Bound>, i: nat)
    requires i <= |bounds| && (forall j :: 0 <= j < i ==> bounds[j].eq.Some?) && (i < |bounds| ==> bounds[i].eq.None?)
    ensures EqPrefix(bounds) == i
  {
    if i > 0 {
      EqPrefixIs(bounds[1..], i - 1);
    }
  }

  /** The columns before `stop` are settled: equalities, and at most one column with a range. */
  ghost predicate Settled(bounds: seq<Bound>, sizes: seq<nat>, r: Range, stop: nat, consumed: bool)
    requires |bounds| == |sizes|
  {
    var p := EqPrefix(bounds);
    && |r.lower| == |r.upper| == |bounds|
    && stop == (if consumed then p + 1 else p) && stop <= |bounds|
    && (forall i :: 0 <= i < p ==> r.lower[i] == r.upper[i] == bounds[i].eq.v)
    && (consumed ==>
      && r.used
      && r.lower[p] == (if bounds[p].lower.Some? then bounds[p].lower.v else Extreme(sizes[p], false))
      && r.lowerIn == (bounds[p].lower.None? || bounds[p].lowerIn)
      && r.upper[p] == (if bounds[p].upper.Some? then bounds[p].upper.v else Extreme(sizes[p], true))
      && r.upperIn == (bounds[p].upper.None? || bounds[p].upperIn))
    && (!consumed ==> r.lowerIn && r.upperIn && (r.used <==> p > 0))
    && (!consumed && p < |bounds| ==> bounds[p].lower.None? && bounds[p].upper.None?)
  }

  /** The first loop of build_scan_range: equalities, then one range, then stop. */
  method SettlePrefix(bounds: seq<Bound>, sizes: seq<nat>) returns (r: Range, stop: nat, consumed: bool)
    requires BoundsFit(bounds, sizes)
    ensures Settled(bounds, sizes, r, stop, consumed)
  {
    var n := |bounds|;
    var lower, upper := seq(n, _ => 0), seq(n, _ => 0);
    var used, i := false, 0;
    while i < n
      invariant i <= n && |lower| == |upper| == n
      invariant forall j :: 0 <= j < i ==> bounds[j].eq.Some? && lower[j] == upper[j] == bounds[j].eq.v
      invariant used <==> i > 0
    {
      var b := bounds[i];
      assert BoundFits(b, sizes[i]);
      if b.eq.Some? {
        lower, upper, used := lower[i := b.eq.v], upper[i := b.eq.v], true;
        i := i + 1;
        continue;
      }
      EqPrefixIs(bounds, i);
      if b.lower.Some? || b.upper.Some? {
        lower := lower[i := if b.lower.Some? then b.lower.v else Extreme(sizes[i], false)];
        upper := upper[i := if b.upper.Some? then b.upper.v else Extreme(sizes[i], true)];
        r := Range(true, lower, upper, b.lower.None? || b.lowerIn, b.upper.None? || b.upperIn);
        return r, i + 1, true;
      }
      return Range(used, lower, upper, true, true), i, false;
    }
    EqPrefixIs(bounds, n);
    return Range(used, lower, upper, true, true), n, false;
  }

  /** A key in the range of a used prefix meets its bounds; an unused prefix bounds nothing. */
  method BuildKeys(bounds: seq<Bound>, sizes: seq<nat>) returns (r: Range)
    requires BoundsFit(bounds, sizes)
    ensures |r.lower| == |r.upper| == |bounds|
    ensures r.used ==> Shaped(bounds, sizes, r) && Fits(r.lower, sizes) && Fits(r.upper, sizes)
    ensures !r.used ==> forall k: seq<int> :: |k| == |bounds| ==> InPrefix(bounds, k)
  {
    var stop, consumed;
    r, stop, consumed := SettlePrefix(bounds, sizes);
    if !r.used {
      return;
    }
    var lower, upper := r.lower, r.upper;
    for i := stop to |bounds|
      invariant |lower| == |upper| == |bounds|
      invariant forall j :: 0 <= j < stop ==> lower[j] == r.lower[j] && upper[j] == r.upper[j]
      invariant forall j :: stop <= j < i ==> lower[j] == Extreme(sizes[j], !r.lowerIn)
      invariant forall j :: stop <= j < i ==> upper[j] == Extreme(sizes[j], r.upperIn)
    {
      lower := lower[i := Extreme(sizes[i], consumed && !r.lowerIn)];
      upper := upper[i := Extreme(sizes[i], !(consumed && !r.upperIn))];
    }
    ghost var was := r;
    r := r.(lower := lower, upper := upper);
    PaddedShape(bounds, sizes, was, r, stop, consumed);
  }

  lemma PaddedShape(bounds: seq<Bound>, sizes: seq<nat>, was: Range, r: Range, stop: nat, consumed: bool)
    requires BoundsFit(bounds, sizes) && Settled(bounds, sizes, was, stop, consumed) && was.used
    requires r == was.(lower := r.lower, upper := r.upper) && |r.lower| == |r.upper| == |bounds|
    requires forall j :: 0 <= j < stop ==> r.lower[j] == was.lower[j] && r.upper[j] == was.upper[j]
    requires forall j :: stop <= j < |bounds| ==> r.lower[j] == Extreme(sizes[j], !r.lowerIn)
    requires forall j :: stop <= j < |bounds| ==> r.upper[j] == Extreme(sizes[j], r.upperIn)
    ensures Shaped(bounds, sizes, r) && Fits(r.lower, sizes) && Fits(r.upper, sizes)
  {
    var p := EqPrefix(bounds);
    forall i | 0 <= i < |bounds| ensures 0 <= r.lower[i] < sizes[i] && 0 <= r.upper[i] < sizes[i] {
      assert BoundFits(bounds[i], sizes[i]);
      assert i < p || (consumed && i == p) || stop <= i;
    }
  }
}
