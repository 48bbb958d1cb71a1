/** Which index the planner picks for a scan, and why its range is then really bounded. */
module IndexChoice {
  import opened Sequences
  import opened IndexRange
  import Q = Queries

  predicate On(tab: string, name: string, c: Q.Cond)
  {
    c.isVal && c.lhs.tab == tab && c.lhs.col == name
  }

  ghost predicate HasEqCond(conds: seq<Q.Cond>, tab: string, name: string)
  {
    exists k :: 0 <= k < |conds| && On(tab, name, conds[k]) && conds[k].op == Q.EQ
  }

  ghost predicate HasRangeCond(conds: seq<Q.Cond>, tab: string, name: string)
  {
    exists k :: 0 <= k < |conds| && On(tab, name, conds[k]) && conds[k].op != Q.EQ && conds[k].op != Q.NE
  }

  method FindCond(conds: seq<Q.Cond>, tab: string, name: string) returns (eq: bool, range: bool)
    ensures eq <==> HasEqCond(conds, tab, name)
    ensures range <==> HasRangeCond(conds, tab, name)
  {
    eq, range := false, false;
    for i := 0 to |conds|
      invariant eq <==> exists k :: 0 <= k < i && On(tab, name, conds[k]) && conds[k].op == Q.EQ
      invariant range <==>
        exists k :: 0 <= k < i && On(tab, name, conds[k]) && conds[k].op != Q.EQ && conds[k].op != Q.NE
    {
      if On(tab, name, conds[i]) {
        if conds[i].op == Q.EQ {
          eq := true;
        } else if conds[i].op != Q.NE {
          range := true;
        }
      }
    }
  }

  /** Columns fixed by equalities, and one more if it has a range. */
  ghost function MatchLength(tab: string, cols: seq<string>, conds: seq<Q.Cond>): nat
  {
    if cols == [] then 0
    else if HasEqCond(conds, tab, cols[0]) then 1 + MatchLength(tab, cols[1..], conds)
    else if HasRangeCond(conds, tab, cols[0]) then 1 else 0
  }

  method CalcIndexPrefixMatch(tab: string, cols: seq<string>, conds: seq<Q.Cond>) returns (n: nat)
    ensures n == MatchLength(tab, cols, conds)
  {
    n := 0;
    for i := 0 to |cols|
      invariant n == i && MatchLength(tab, cols, conds) == i + MatchLength(tab, cols[i..], conds)
    {
      assert cols[i..][1..] == cols[i + 1..];
      var eq, range := FindCond(conds, tab, cols[i]);
      if eq {
        n := n + 1;
        continue;
      }
      if range {
        n := n + 1;
      }
      return;
    }
  }

  /** The first index with the longest match, if any index matches at all. */
  method GetIndexCols(tab: string, indexes: seq<seq<string>>, conds: seq<Q.Cond>) returns (found: bool, best: nat)
    ensures found <==> exists i :: 0 <= i < |indexes| && MatchLength(tab, indexes[i], conds) > 0
    ensures found ==> best < |indexes| && MatchLength(tab, indexes[best], conds) > 0
    ensures found ==> forall i :: 0 <= i < |indexes| ==>
      MatchLength(tab, indexes[i], conds) <= MatchLength(tab, indexes[best], conds)
    ensures found ==> forall i :: 0 <= i < best ==>
      MatchLength(tab, indexes[i], conds) < MatchLength(tab, indexes[best], conds)
  {
    var longest := 0;
    best := 0;
    for i := 0 to |indexes|
      invariant forall j :: 0 <= j < i ==> MatchLength(tab, indexes[j], conds) <= longest
      invariant longest > 0 ==> best < i && MatchLength(tab, indexes[best], conds) == longest
      invariant longest > 0 ==> forall j :: 0 <= j < best ==> MatchLength(tab, indexes[j], conds) < longest
    {
      var n := CalcIndexPrefixMatch(tab, indexes[i], conds);
      if n > longest {
        longest, best := n, i;
      }
    }
    found := longest > 0;
  }

  // ---------- the planner's count and the executor's range agree ----------

  predicate Bounded(b: Bound)
  {
    b.lower.Some? || b.upper.Some?
  }

  /** The number of columns the executor's range settles. */
  function Settles(bounds: seq<Bound>): nat
  {
    var p := EqPrefix(bounds);
    if p < |bounds| && Bounded(bounds[p]) then p + 1 else p
  }

  lemma {:induction false} FirstIndexOfOwn(cols: seq<string>, i: nat)
    requires NoDup(cols) && i < |cols|
    ensures FirstIndex(cols, cols[i]) == i
  {
    if i > 0 {
      FirstIndexOfOwn(cols[1..], i - 1);
    }
  }

  lemma BoundOfColumn(tab: string, cols: seq<string>, conds: seq<Q.Cond>, i: nat, b: Bound)
    requires NoDup(cols) && i < |cols| && Collected(tab, cols, conds, |conds|, i, b)
    ensures b.eq.Some? <==> HasEqCond(conds, tab, cols[i])
    ensures b.eq.None? ==> (Bounded(b) <==> HasRangeCond(conds, tab, cols[i]))
  {
    FirstIndexOfOwn(cols, i);
    forall k | 0 <= k < |conds|
      ensures On(tab, cols[i], conds[k]) && conds[k].op != Q.NE <==> Bounds(tab, cols, conds[k], i)
    {
      assert FirstIndex(cols, conds[k].lhs.col) == i ==> conds[k].lhs.col == cols[i];
    }
    if b.eq.None? {
      BoundedIfRange(tab, cols, conds, i, b);
    }
  }

  /** Unbounded means every value passes, and a range condition stops some value. */
  lemma BoundedIfRange(tab: string, cols: seq<string>, conds: seq<Q.Cond>, i: nat, b: Bound)
    requires i < |cols| && b.eq.None? && Collected(tab, cols, conds, |conds|, i, b)
    ensures Bounded(b) <==> exists k :: 0 <= k < |conds| && Bounds(tab, cols, conds[k], i) && conds[k].op != Q.EQ
  {
    if Bounded(b) {
      var v := if b.lower.Some? then b.lower.v - 1 else b.upper.v + 1;
      assert !Between(b, v);
      assert !OrderHolds(tab, cols, conds, |conds|, i, v);
    } else if exists k :: 0 <= k < |conds| && Bounds(tab, cols, conds[k], i) && conds[k].op != Q.EQ {
      var k :| 0 <= k < |conds| && Bounds(tab, cols, conds[k], i) && conds[k].op != Q.EQ;
      var c := conds[k];
      var v := if c.op == Q.LT || c.op == Q.LE then c.val + 1 else c.val - 1;
      assert Between(b, v) && !Q.Compare(v, c.op, c.val);
    }
  }

  lemma {:induction false} SameCount(tab: string, cols: seq<string>, conds: seq<Q.Cond>, bounds: seq<Bound>)
    requires |bounds| == |cols|
    requires forall i :: 0 <= i < |cols| ==> (bounds[i].eq.Some? <==> HasEqCond(conds, tab, cols[i]))
    requires forall i :: 0 <= i < |cols| && bounds[i].eq.None? ==>
      (Bounded(bounds[i]) <==> HasRangeCond(conds, tab, cols[i]))
    ensures MatchLength(tab, cols, conds) == Settles(bounds)
  {
    if cols != [] && bounds[0].eq.Some? {
      SameCount(tab, cols[1..], conds, bounds[1..]);
    }
  }

  /** For an index over different columns, the length the planner counts is the number of columns the scan's
      range settles; so an index is chosen exactly when its range excludes something. */
  lemma PlannerAgreesWithExecutor(tab: string, cols: seq<string>, conds: seq<Q.Cond>, bounds: seq<Bound>)
    requires NoDup(cols) && |bounds| == |cols|
    requires forall i :: 0 <= i < |cols| ==> Collected(tab, cols, conds, |conds|, i, bounds[i])
    ensures MatchLength(tab, cols, conds) == Settles(bounds)
  {
    forall i | 0 <= i < |cols|
      ensures bounds[i].eq.Some? <==> HasEqCond(conds, tab, cols[i])
      ensures bounds[i].eq.None? ==> (Bounded(bounds[i]) <==> HasRangeCond(conds, tab, cols[i]))
    {
      BoundOfColumn(tab, cols, conds, i, bounds[i]);
    }
    SameCount(tab, cols, conds, bounds);
  }
}
