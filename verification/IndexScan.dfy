/** The index scan executor, and why it returns what the sequential scan returns. */
module IndexScan {
  import opened Rids
  import opened Sequences
  import opened KeyOrder
  import opened IndexRange
  import Q = Queries
  import B = BTreeState
  import C = BTreeCursor
  import X = BTreeIndex
  import S = BTreeScan
  import G = BTreeListing

  /** The index: its table, its columns and how many values each column has. */
  datatype Def = Def(tab: string, cols: seq<string>, sizes: seq<nat>)

  type Rows = map<Rid, Q.Row>

  function KeyOf(row: Q.Row, cols: seq<string>): seq<int>
  {
    seq(|cols|, i requires 0 <= i < |cols| => row(cols[i]))
  }

  predicate Sat(row: Q.Row, c: Q.Cond)
  {
    Q.Compare(row(c.lhs.col), c.op, if c.isVal then c.val else row(c.rhs.col))
  }

  predicate SatAll(row: Q.Row, conds: seq<Q.Cond>)
  {
    forall k :: 0 <= k < |conds| ==> Sat(row, conds[k])
  }

  ghost predicate RowsFit(def: Def, rows: Rows)
  {
    forall rid :: rid in rows ==> Fits(KeyOf(rows[rid], def.cols), def.sizes)
  }

  /** The index holds the key of every row, and nothing else. */
  ghost predicate Agrees(def: Def, rows: Rows, m: map<int, Rid>)
    requires |def.cols| == |def.sizes|
  {
    && (forall rid :: rid in rows ==>
      var k := Code(KeyOf(rows[rid], def.cols), def.sizes); k in m && m[k] == rid)
    && (forall k :: k in m ==> m[k] in rows && Code(KeyOf(rows[m[k]], def.cols), def.sizes) == k)
  }

  // ---------- no matching row is outside the range ----------

  ghost predicate AllCollected(def: Def, conds: seq<Q.Cond>, bounds: seq<Bound>)
  {
    |bounds| == |def.cols| && forall i :: 0 <= i < |bounds| ==>
      Collected(def.tab, def.cols, conds, |conds|, i, bounds[i])
  }

  lemma MatchIsInPrefix(def: Def, conds: seq<Q.Cond>, bounds: seq<Bound>, row: Q.Row)
    requires AllCollected(def, conds, bounds) && SatAll(row, conds)
    ensures InPrefix(bounds, KeyOf(row, def.cols))
  {
    var p, key := EqPrefix(bounds), KeyOf(row, def.cols);
    forall i | 0 <= i < p ensures key[i] == bounds[i].eq.v {
      assert Collected(def.tab, def.cols, conds, |conds|, i, bounds[i]);
      var k :| 0 <= k < |conds| && Bounds(def.tab, def.cols, conds[k], i) && conds[k].op == Q.EQ
        && conds[k].val == bounds[i].eq.v;
      assert Sat(row, conds[k]);
    }
    if p < |bounds| {
      assert Collected(def.tab, def.cols, conds, |conds|, p, bounds[p]);
      forall k | 0 <= k < |conds| && Bounds(def.tab, def.cols, conds[k], p) && conds[k].op != Q.EQ
        ensures Q.Compare(key[p], conds[k].op, conds[k].val)
      {
        assert Sat(row, conds[k]);
      }
      assert OrderHolds(def.tab, def.cols, conds, |conds|, p, key[p]);
    }
  }

  // ---------- keys and their numbers ----------

  lemma InKeysIsInRange(def: Def, r: Range, k: seq<int>)
    requires Fits(k, def.sizes) && Fits(r.lower, def.sizes) && Fits(r.upper, def.sizes)
    ensures InKeys(r, k) <==>
      S.InRange(Code(k, def.sizes), Code(r.lower, def.sizes), r.lowerIn, Code(r.upper, def.sizes), r.upperIn)
  {
    CodeOrders(r.lower, k, def.sizes);
    CodeOrders(k, r.upper, def.sizes);
  }

  /** The range holds no key at all. */
  predicate Contradicts(r: Range)
    requires |r.lower| == |r.upper|
  {
    var cmp := LexCmp(r.lower, r.upper);
    cmp > 0 || (cmp == 0 && (!r.lowerIn || !r.upperIn))
  }

  // ---------- the two cursors ----------

  /** The positions of the entries to visit. */
  ghost predicate Window(def: Def, r: Range, es: seq<B.Entry>, a: int, b: int)
    requires |def.sizes| == |r.lower| == |r.upper|
  {
    if r.used then Spans(es, Code(r.lower, def.sizes), r.lowerIn, Code(r.upper, def.sizes), r.upperIn, a, b)
    else a == 0 && b == |es|
  }

  /** Inclusive ends start at the key and stop after it; exclusive ends the other way round. */
  method KeyCursors(ih: X.IxIndexHandle, lo: int, loIn: bool, hi: int, hiIn: bool) returns (lower: C.Iid, upper: C.Iid)
    requires ih.Valid() && (lo < hi || (lo == hi && loIn && hiIn))
    ensures C.Cursor(ih.T(), ih.g, lower) && C.Cursor(ih.T(), ih.g, upper)
    ensures Spans(C.All(ih.T(), ih.g), lo, loIn, hi, hiIn, C.PosOf(ih.T(), ih.g, lower), C.PosOf(ih.T(), ih.g, upper))
  {
    if loIn { lower := ih.LowerBoundIid(lo); } else { lower := ih.UpperBoundIid(lo); }
    if hiIn { upper := ih.UpperBoundIid(hi); } else { upper := ih.LowerBoundIid(hi); }
    CutsSpan(C.All(ih.T(), ih.g), lo, loIn, hi, hiIn, C.PosOf(ih.T(), ih.g, lower), C.PosOf(ih.T(), ih.g, upper));
  }

  /** The entries from `a` up to `b` are those in range. */
  ghost predicate Spans(es: seq<B.Entry>, lo: int, loIn: bool, hi: int, hiIn: bool, a: int, b: int)
  {
    && 0 <= a <= b <= |es|
    && forall q :: 0 <= q < |es| ==> (a <= q < b <==> S.InRange(es[q].key, lo, loIn, hi, hiIn))
  }

  lemma CutsSpan(es: seq<B.Entry>, lo: int, loIn: bool, hi: int, hiIn: bool, a: int, b: int)
    requires if loIn then C.CutBelow(es, lo, a) else C.CutAbove(es, lo, a)
    requires if hiIn then C.CutAbove(es, hi, b) else C.CutBelow(es, hi, b)
    requires lo < hi || (lo == hi && loIn && hiIn)
    ensures Spans(es, lo, loIn, hi, hiIn, a, b)
  {
    S.CutsOrdered(es, lo, loIn, hi, hiIn, a, b);
  }

  method BuildScanRange(ih: X.IxIndexHandle, def: Def, r: Range) returns (lower: C.Iid, upper: C.Iid)
    requires ih.Valid() && |def.sizes| == |r.lower| == |r.upper|
    requires r.used ==> Fits(r.lower, def.sizes) && Fits(r.upper, def.sizes)
    ensures C.Cursor(ih.T(), ih.g, lower) && C.Cursor(ih.T(), ih.g, upper)
    ensures Window(def, r, C.All(ih.T(), ih.g), C.PosOf(ih.T(), ih.g, lower), C.PosOf(ih.T(), ih.g, upper))
  {
    if !r.used {
      lower := ih.LeafBegin();
      upper := ih.LeafEnd();
      return;
    }
    CodeOrders(r.lower, r.upper, def.sizes);
    if Contradicts(r) {
      lower := ih.LeafBegin();
      return lower, lower;
    }
    lower, upper := KeyCursors(ih, Code(r.lower, def.sizes), r.lowerIn, Code(r.upper, def.sizes), r.upperIn);
  }

  // ---------- walking the window ----------

  /** Every entry leads to a row. */
  ghost predicate Rooted(es: seq<B.Entry>, rows: Rows)
  {
    forall q :: 0 <= q < |es| ==> es[q].rid in rows
  }

  predicate Hit(es: seq<B.Entry>, rows: Rows, conds: seq<Q.Cond>, q: int)
  {
    0 <= q < |es| && es[q].rid in rows && SatAll(rows[es[q].rid], conds)
  }

  /** The rids of the matching entries from `a` up to `b`. */
  ghost function Matching(es: seq<B.Entry>, rows: Rows, conds: seq<Q.Cond>, a: int, b: int): seq<Rid>
    requires 0 <= a <= b <= |es|
    decreases b - a
  {
    if a == b then []
    else Matching(es, rows, conds, a, b - 1) + if Hit(es, rows, conds, b - 1) then [es[b - 1].rid] else []
  }

  lemma {:induction false} MatchingSkip(es: seq<B.Entry>, rows: Rows, conds: seq<Q.Cond>, a: int, p: int, q: int)
    requires 0 <= a <= p <= q <= |es| && forall i :: p <= i < q ==> !Hit(es, rows, conds, i)
    ensures Matching(es, rows, conds, a, q) == Matching(es, rows, conds, a, p)
    decreases q - p
  {
    if p < q {
      MatchingSkip(es, rows, conds, a, p, q - 1);
    }
  }

  /** Moves the scan forward to the next entry whose row satisfies all conditions. */
  method AdvanceToMatch(scan: S.IxScan, rows: Rows, conds: seq<Q.Cond>)
    requires scan.Valid() && Rooted(C.All(scan.ih.T(), scan.ih.g), rows)
    modifies scan`iid
    ensures scan.Valid()
    ensures var p := C.PosOf(scan.ih.T(), scan.ih.g, scan.iid);
      && old(C.PosOf(scan.ih.T(), scan.ih.g, scan.iid)) <= p
      && (forall i :: old(C.PosOf(scan.ih.T(), scan.ih.g, scan.iid)) <= i < p ==>
        !Hit(C.All(scan.ih.T(), scan.ih.g), rows, conds, i))
      && (scan.Left() > 0 ==> Hit(C.All(scan.ih.T(), scan.ih.g), rows, conds, p))
  {
    ghost var t, g := scan.ih.T(), scan.ih.g;
    ghost var es, a := C.All(t, g), C.PosOf(t, g, scan.iid);
    var end := scan.IsEnd();
    while !end
      invariant scan.Valid() && scan.ih.T() == t && scan.ih.g == g
      invariant a <= C.PosOf(t, g, scan.iid) && (end <==> scan.Left() == 0)
      invariant forall i :: a <= i < C.PosOf(t, g, scan.iid) ==> !Hit(es, rows, conds, i)
      decreases scan.Left()
    {
      var rid := scan.Current();
      if SatAll(rows[rid], conds) {
        return;
      }
      scan.Next();
      end := scan.IsEnd();
    }
  }

  /** Takes the current rid and moves on to the next match: one call of Next and nextTuple. */
  method NextTuple(scan: S.IxScan, rows: Rows, conds: seq<Q.Cond>) returns (rid: Rid)
    requires scan.Valid() && scan.Left() > 0 && Rooted(C.All(scan.ih.T(), scan.ih.g), rows)
    modifies scan`iid
    ensures scan.Valid()
    ensures var es, was, p := C.All(scan.ih.T(), scan.ih.g), old(C.PosOf(scan.ih.T(), scan.ih.g, scan.iid)),
                              C.PosOf(scan.ih.T(), scan.ih.g, scan.iid);
      && was < p && was < |es| && rid == es[was].rid
      && (forall i :: was < i < p ==> !Hit(es, rows, conds, i))
      && (scan.Left() > 0 ==> Hit(es, rows, conds, p))
  {
    rid := scan.Current();
    scan.Next();
    AdvanceToMatch(scan, rows, conds);
  }

  /** beginTuple, then nextTuple until the end. */
  method Walk(ih: X.IxIndexHandle, lower: C.Iid, upper: C.Iid, rows: Rows, conds: seq<Q.Cond>) returns (out: seq<Rid>)
    requires S.Walkable(ih.T(), ih.g) && C.Cursor(ih.T(), ih.g, lower) && C.Cursor(ih.T(), ih.g, upper)
    requires C.PosOf(ih.T(), ih.g, lower) <= C.PosOf(ih.T(), ih.g, upper)
    requires Rooted(C.All(ih.T(), ih.g), rows)
    ensures C.PosOf(ih.T(), ih.g, upper) <= |C.All(ih.T(), ih.g)|
    ensures out == Matching(C.All(ih.T(), ih.g), rows, conds,
                            C.PosOf(ih.T(), ih.g, lower), C.PosOf(ih.T(), ih.g, upper))
  {
    C.PosEntry(ih.T(), ih.g, upper);
    var scan := new S.IxScan(ih, lower, upper);
    AdvanceToMatch(scan, rows, conds);
    ghost var es, a, p := C.All(ih.T(), ih.g), C.PosOf(ih.T(), ih.g, lower), C.PosOf(ih.T(), ih.g, scan.iid);
    MatchingSkip(es, rows, conds, a, a, p);
    MatchingSplit(es, rows, conds, a, p, C.PosOf(ih.T(), ih.g, upper));
    out := WalkOn(scan, rows, conds);
  }

  lemma {:induction false} MatchingSplit(es: seq<B.Entry>, rows: Rows, conds: seq<Q.Cond>, a: int, m: int, b: int)
    requires 0 <= a <= m <= b <= |es|
    ensures Matching(es, rows, conds, a, b) == Matching(es, rows, conds, a, m) + Matching(es, rows, conds, m, b)
    decreases b - m
  {
    if m < b {
      MatchingSplit(es, rows, conds, a, m, b - 1);
    }
  }

  /** From one hit to the next hit. */
  lemma MatchingStep(es: seq<B.Entry>, rows: Rows, conds: seq<Q.Cond>, p: int, q: int, b: int)
    requires 0 <= p < q <= b <= |es| && Hit(es, rows, conds, p) && forall i :: p < i < q ==> !Hit(es, rows, conds, i)
    ensures Matching(es, rows, conds, p, b) == [es[p].rid] + Matching(es, rows, conds, q, b)
  {
    MatchingSplit(es, rows, conds, p, q, b);
    MatchingSkip(es, rows, conds, p, p + 1, q);
    assert Matching(es, rows, conds, p, p) == [];
  }

  method WalkOn(scan: S.IxScan, rows: Rows, conds: seq<Q.Cond>) returns (out: seq<Rid>)
    requires scan.Valid() && Rooted(C.All(scan.ih.T(), scan.ih.g), rows)
    requires C.PosOf(scan.ih.T(), scan.ih.g, scan.end) <= |C.All(scan.ih.T(), scan.ih.g)|
    requires scan.Left() > 0 ==>
      Hit(C.All(scan.ih.T(), scan.ih.g), rows, conds, C.PosOf(scan.ih.T(), scan.ih.g, scan.iid))
    modifies scan`iid
    ensures out == Matching(C.All(scan.ih.T(), scan.ih.g), rows, conds,
                            old(C.PosOf(scan.ih.T(), scan.ih.g, scan.iid)), C.PosOf(scan.ih.T(), scan.ih.g, scan.end))
    decreases scan.Left()
  {
    var end := scan.IsEnd();
    if end {
      return [];
    }
    ghost var es, p := C.All(scan.ih.T(), scan.ih.g), C.PosOf(scan.ih.T(), scan.ih.g, scan.iid);
    var rid := NextTuple(scan, rows, conds);
    ghost var q, b := C.PosOf(scan.ih.T(), scan.ih.g, scan.iid), C.PosOf(scan.ih.T(), scan.ih.g, scan.end);
    MatchingStep(es, rows, conds, p, q, b);
    var rest := WalkOn(scan, rows, conds);
    return [rid] + rest;
  }

  // ---------- what comes out ----------

  lemma {:induction false} MatchingListed(es: seq<B.Entry>, rows: Rows, conds: seq<Q.Cond>, a: int, b: int)
    requires 0 <= a <= b <= |es|
    requires forall i, j :: 0 <= i < j < |es| ==> es[i].rid != es[j].rid
    ensures NoDup(Matching(es, rows, conds, a, b))
    ensures forall rid :: rid in Matching(es, rows, conds, a, b) <==>
      exists q :: a <= q < b && Hit(es, rows, conds, q) && es[q].rid == rid
    decreases b - a
  {
    if a < b {
      MatchingListed(es, rows, conds, a, b - 1);
      var front := Matching(es, rows, conds, a, b - 1);
      var rest := if Hit(es, rows, conds, b - 1) then [es[b - 1].rid] else [];
      NoDupJoin(front, rest);
    }
  }

  lemma OneEntryPerRow(def: Def, rows: Rows, es: seq<B.Entry>, m: map<int, Rid>)
    requires |def.cols| == |def.sizes| && G.Ascending(es) && Agrees(def, rows, m) && m == B.ToMap(es)
    ensures forall i, j :: 0 <= i < j < |es| ==> es[i].rid != es[j].rid
    ensures Rooted(es, rows)
    ensures forall q :: 0 <= q < |es| ==> es[q].key == Code(KeyOf(rows[es[q].rid], def.cols), def.sizes)
    ensures forall rid :: rid in rows ==> exists q :: 0 <= q < |es| && es[q].rid == rid
  {
    G.MapListed(es);
    forall q | 0 <= q < |es|
      ensures es[q].rid in rows && es[q].key == Code(KeyOf(rows[es[q].rid], def.cols), def.sizes)
    {
      assert es[q] in es;
    }
    forall rid | rid in rows ensures exists q :: 0 <= q < |es| && es[q].rid == rid {
      assert B.Entry(Code(KeyOf(rows[rid], def.cols), def.sizes), rid) in es;
    }
  }

  /** A matching row's entry lies inside the window. */
  lemma MatchInWindow(def: Def, rows: Rows, conds: seq<Q.Cond>, bounds: seq<Bound>, r: Range, es: seq<B.Entry>,
                      a: int, b: int, q: int)
    requires |def.cols| == |def.sizes| == |r.lower| == |r.upper| && RowsFit(def, rows)
    requires AllCollected(def, conds, bounds)
    requires r.used ==> Shaped(bounds, def.sizes, r) && Fits(r.lower, def.sizes) && Fits(r.upper, def.sizes)
    requires Window(def, r, es, a, b) && Hit(es, rows, conds, q)
    requires es[q].key == Code(KeyOf(rows[es[q].rid], def.cols), def.sizes)
    ensures a <= q < b
  {
    var row := rows[es[q].rid];
    MatchIsInPrefix(def, conds, bounds, row);
    if r.used {
      var k := KeyOf(row, def.cols);
      RangeIsPrefix(bounds, def.sizes, r, k);
      InKeysIsInRange(def, r, k);
    }
  }

  /** One side of the condition is a column of the table, as the executor's constructor asserts. */
  predicate Faces(tab: string, c: Q.Cond)
  {
    c.lhs.tab == tab || (!c.isVal && c.rhs.tab == tab)
  }

  /** The constructor's loop: the table's column comes first. */
  method FaceTable(tab: string, conds: seq<Q.Cond>) returns (faced: seq<Q.Cond>)
    requires forall i :: 0 <= i < |conds| ==> Faces(tab, conds[i])
    ensures |faced| == |conds|
    ensures forall i :: 0 <= i < |conds| ==> faced[i].lhs.tab == tab
    ensures forall i :: 0 <= i < |conds| ==>
      faced[i] == conds[i] || (!conds[i].isVal && faced[i] == Q.Swapped(conds[i]))
  {
    faced := conds;
    for i := 0 to |conds|
      invariant |faced| == |conds|
      invariant forall j :: 0 <= j < i ==> faced[j].lhs.tab == tab
      invariant forall j :: 0 <= j < i ==> faced[j] == conds[j] || (!conds[j].isVal && faced[j] == Q.Swapped(conds[j]))
      invariant forall j :: i <= j < |conds| ==> faced[j] == conds[j]
    {
      if faced[i].lhs.tab != tab {
        faced := faced[i := Q.Swapped(faced[i])];
      }
    }
  }

  lemma FacedMeansSame(def: Def, conds: seq<Q.Cond>, faced: seq<Q.Cond>)
    requires ValuesFit(def.tab, def.cols, def.sizes, conds) && |faced| == |conds|
    requires forall i :: 0 <= i < |conds| ==>
      faced[i] == conds[i] || (!conds[i].isVal && faced[i] == Q.Swapped(conds[i]))
    ensures ValuesFit(def.tab, def.cols, def.sizes, faced)
    ensures forall row :: SatAll(row, faced) <==> SatAll(row, conds)
  {
    forall row ensures SatAll(row, faced) <==> SatAll(row, conds) {
      assert forall k :: 0 <= k < |conds| ==> (Sat(row, faced[k]) <==> Sat(row, conds[k]));
    }
  }

  /** The index scan returns exactly the rows that satisfy the conditions, each once. */
  method IndexScanAll(ih: X.IxIndexHandle, def: Def, rows: Rows, conds: seq<Q.Cond>) returns (out: seq<Rid>)
    requires ih.Valid() && ValuesFit(def.tab, def.cols, def.sizes, conds) && RowsFit(def, rows)
    requires Agrees(def, rows, ih.Map()) && forall i :: 0 <= i < |conds| ==> Faces(def.tab, conds[i])
    ensures NoDup(out)
    ensures forall rid :: rid in out <==> rid in rows && SatAll(rows[rid], conds)
  {
    var faced := FaceTable(def.tab, conds);
    FacedMeansSame(def, conds, faced);
    out := ScanFaced(ih, def, rows, faced);
  }

  method ScanFaced(ih: X.IxIndexHandle, def: Def, rows: Rows, conds: seq<Q.Cond>) returns (out: seq<Rid>)
    requires ih.Valid() && ValuesFit(def.tab, def.cols, def.sizes, conds) && RowsFit(def, rows)
    requires Agrees(def, rows, ih.Map())
    ensures NoDup(out)
    ensures forall rid :: rid in out <==> rid in rows && SatAll(rows[rid], conds)
  {
    var bounds := CollectBounds(def.tab, def.cols, def.sizes, conds);
    var r := BuildKeys(bounds, def.sizes);
    var lower, upper := BuildScanRange(ih, def, r);
    out := WalkWindow(ih, def, rows, conds, bounds, r, lower, upper);
  }

  method WalkWindow(ih: X.IxIndexHandle, def: Def, rows: Rows, conds: seq<Q.Cond>, ghost bounds: seq<Bound>,
                    ghost r: Range, lower: C.Iid, upper: C.Iid) returns (out: seq<Rid>)
    requires ih.Valid() && |def.cols| == |def.sizes| == |r.lower| == |r.upper|
    requires RowsFit(def, rows) && Agrees(def, rows, ih.Map()) && AllCollected(def, conds, bounds)
    requires r.used ==> Shaped(bounds, def.sizes, r) && Fits(r.lower, def.sizes) && Fits(r.upper, def.sizes)
    requires C.Cursor(ih.T(), ih.g, lower) && C.Cursor(ih.T(), ih.g, upper)
    requires Window(def, r, C.All(ih.T(), ih.g), C.PosOf(ih.T(), ih.g, lower), C.PosOf(ih.T(), ih.g, upper))
    ensures NoDup(out)
    ensures forall rid :: rid in out <==> rid in rows && SatAll(rows[rid], conds)
  {
    ghost var es := C.All(ih.T(), ih.g);
    G.AllAscending(ih.T(), ih.g);
    EntriesRooted(def, rows, es, ih.Map());
    out := Walk(ih, lower, upper, rows, conds);
    ghost var a, b := C.PosOf(ih.T(), ih.g, lower), C.PosOf(ih.T(), ih.g, upper);
    WindowIsRight(def, rows, conds, bounds, r, es, ih.Map(), a, b);
  }

  lemma EntriesRooted(def: Def, rows: Rows, es: seq<B.Entry>, m: map<int, Rid>)
    requires |def.cols| == |def.sizes| && G.Ascending(es) && Agrees(def, rows, m) && m == B.ToMap(es)
    ensures Rooted(es, rows)
  {
    OneEntryPerRow(def, rows, es, m);
  }

  lemma WindowIsRight(def: Def, rows: Rows, conds: seq<Q.Cond>, bounds: seq<Bound>, r: Range, es: seq<B.Entry>,
                      m: map<int, Rid>, a: int, b: int)
    requires |def.cols| == |def.sizes| == |r.lower| == |r.upper| && RowsFit(def, rows)
    requires G.Ascending(es) && Agrees(def, rows, m) && m == B.ToMap(es) && AllCollected(def, conds, bounds)
    requires r.used ==> Shaped(bounds, def.sizes, r) && Fits(r.lower, def.sizes) && Fits(r.upper, def.sizes)
    requires 0 <= a <= b <= |es| && Window(def, r, es, a, b)
    ensures NoDup(Matching(es, rows, conds, a, b))
    ensures forall rid :: rid in Matching(es, rows, conds, a, b) <==> rid in rows && SatAll(rows[rid], conds)
  {
    OneEntryPerRow(def, rows, es, m);
    MatchingListed(es, rows, conds, a, b);
    OutIsRight(def, rows, conds, bounds, r, es, a, b);
  }

  lemma OutIsRight(def: Def, rows: Rows, conds: seq<Q.Cond>, bounds: seq<Bound>, r: Range, es: seq<B.Entry>, a: int,
                   b: int)
    requires |def.cols| == |def.sizes| == |r.lower| == |r.upper| && RowsFit(def, rows)
    requires AllCollected(def, conds, bounds)
    requires r.used ==> Shaped(bounds, def.sizes, r) && Fits(r.lower, def.sizes) && Fits(r.upper, def.sizes)
    requires Window(def, r, es, a, b) && 0 <= a <= b <= |es| && Rooted(es, rows)
    requires forall q :: 0 <= q < |es| ==> es[q].key == Code(KeyOf(rows[es[q].rid], def.cols), def.sizes)
    requires forall rid :: rid in rows ==> exists q :: 0 <= q < |es| && es[q].rid == rid
    requires forall i, j :: 0 <= i < j < |es| ==> es[i].rid != es[j].rid
    ensures forall rid :: rid in Matching(es, rows, conds, a, b) <==> rid in rows && SatAll(rows[rid], conds)
  {
    MatchingListed(es, rows, conds, a, b);
    forall rid | rid in rows && SatAll(rows[rid], conds) ensures rid in Matching(es, rows, conds, a, b) {
      var q :| 0 <= q < |es| && es[q].rid == rid;
      assert Hit(es, rows, conds, q);
      MatchInWindow(def, rows, conds, bounds, r, es, a, b, q);
    }
  }

  // ---------- the sequential scan ----------

  function Passing(scan: seq<Rid>, rows: Rows, conds: seq<Q.Cond>): seq<Rid>
  {
    if scan == [] then []
    else
      var rid := scan[|scan| - 1];
      Passing(scan[..|scan| - 1], rows, conds) + if rid in rows && SatAll(rows[rid], conds) then [rid] else []
  }

  lemma {:induction false} PassingListed(scan: seq<Rid>, rows: Rows, conds: seq<Q.Cond>)
    requires NoDup(scan)
    ensures NoDup(Passing(scan, rows, conds))
    ensures forall rid :: rid in Passing(scan, rows, conds) <==> rid in scan && rid in rows && SatAll(rows[rid], conds)
  {
    if scan != [] {
      var n := |scan| - 1;
      PassingListed(scan[..n], rows, conds);
      assert scan == scan[..n] + [scan[n]];
      var rest := if scan[n] in rows && SatAll(rows[scan[n]], conds) then [scan[n]] else [];
      NoDupJoin(Passing(scan[..n], rows, conds), rest);
    }
  }

  /** beginTuple and nextTuple of the sequential scan over the heap's rids. */
  method SeqScanAll(scan: seq<Rid>, rows: Rows, conds: seq<Q.Cond>) returns (out: seq<Rid>)
    requires forall i :: 0 <= i < |scan| ==> scan[i] in rows
    ensures out == Passing(scan, rows, conds)
  {
    out := [];
    for i := 0 to |scan|
      invariant out == Passing(scan[..i], rows, conds)
    {
      assert scan[..i + 1][..i] == scan[..i];
      if SatAll(rows[scan[i]], conds) {
        out := out + [scan[i]];
      }
    }
    assert scan[..|scan|] == scan;
  }

  /** For every condition list and every index that agrees with the heap, the two scans return the same rows. */
  method ScansAgree(ih: X.IxIndexHandle, def: Def, rows: Rows, conds: seq<Q.Cond>, heap: seq<Rid>)
    returns (byIndex: seq<Rid>, bySequence: seq<Rid>)
    requires ih.Valid() && ValuesFit(def.tab, def.cols, def.sizes, conds) && RowsFit(def, rows)
    requires Agrees(def, rows, ih.Map()) && forall i :: 0 <= i < |conds| ==> Faces(def.tab, conds[i])
    requires NoDup(heap) && forall rid :: rid in heap <==> rid in rows
    ensures multiset(byIndex) == multiset(bySequence)
  {
    byIndex := IndexScanAll(ih, def, rows, conds);
    bySequence := SeqScanAll(heap, rows, conds);
    PassingListed(heap, rows, conds);
    SameMembersSameBag(byIndex, bySequence);
  }
}
