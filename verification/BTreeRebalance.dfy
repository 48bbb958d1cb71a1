/** Moving entries between two neighbouring siblings. */
module BTreeRebalance {
  import opened Rids
  import opened BTreeState
  import opened BTreeOrder
  import opened BTreeInsert

  /** `l` and `r` are the children in slots `a` and `a + 1` of `q`. */
  ghost predicate Siblings(t: Tree, g: Shape, q: int, a: int, l: int, r: int)
  {
    && DomOk(t, g) && q in g.ht && g.ht[q] > 0 && l in g.ht && r in g.ht && l != r
    && |t.pages[q].keys| == |t.pages[q].rids|
    && 0 <= a && a + 1 < |t.pages[q].rids|
    && t.pages[q].rids[a] == Rid(l, -1) && t.pages[q].rids[a + 1] == Rid(r, -1)
    && g.ht[l] + 1 == g.ht[q] == g.ht[r] + 1
    && |t.pages[l].keys| == |t.pages[l].rids| && |t.pages[r].keys| == |t.pages[r].rids|
    && g.hi[l] == g.lo[r] && g.lo[r].At?
  }

  lemma SiblingsAt(t: Tree, g: Shape, q: int, a: int)
    requires DomOk(t, g) && NodesOk(t, g) && KidsOk(t, g) && q in g.ht && g.ht[q] > 0
    requires 0 <= a && a + 1 < |t.pages[q].rids|
    ensures Siblings(t, g, q, a, t.pages[q].rids[a].page, t.pages[q].rids[a + 1].page)
  {
    assert NodeOk(t, g, q) && KidOk(t, g, q, a) && KidOk(t, g, q, a + 1);
    assert NodeOk(t, g, t.pages[q].rids[a].page) && NodeOk(t, g, t.pages[q].rids[a + 1].page);
    KidsDistinct(t, g, q, a, a + 1);
  }

  /** The pages after the entries of `l` and `r` have been dealt out again as `nl` and `nr`. */
  ghost predicate DealView(t: Tree, t': Tree, q: int, a: int, l: int, r: int, nl: Node, nr: Node) {
    && q in t.pages && l in t.pages && r in t.pages && q != l && q != r && l != r
    && |t.pages[q].keys| == |t.pages[q].rids| && 0 <= a && a + 1 < |t.pages[q].keys|
    && |nl.keys| > 0 && |nr.keys| > 0
    && t'.pages.Keys == t.pages.Keys
    && t'.pages[l] == nl
    && t'.pages[r] == nr
    && t'.pages[q] == t.pages[q].(keys := t.pages[q].keys[a := nl.keys[0]][a + 1 := nr.keys[0]])
    && (forall u | u in t.pages && u != q && u != l && u != r ::
          t'.pages[u] == if !nl.leaf && Rid(u, -1) in nl.rids then t.pages[u].(parent := l)
                         else if !nr.leaf && Rid(u, -1) in nr.rids then t.pages[u].(parent := r)
                         else t.pages[u])
    && t' == t.(pages := t'.pages)
  }

  ghost predicate Deal(t: Tree, g: Shape, x: int, q: int, a: int, l: int, r: int, nl: Node, nr: Node, t': Tree,
                       g': Shape) {
    && Inv(t, g, x) && (x == l || x == r)
    && Siblings(t, g, q, a, l, r)
    && SameLinks(nl, t.pages[l]) && SameLinks(nr, t.pages[r])
    && nl.keys + nr.keys == t.pages[l].keys + t.pages[r].keys
    && nl.rids + nr.rids == t.pages[l].rids + t.pages[r].rids
    && |nl.keys| == |nl.rids| && |nr.keys| == |nr.rids|
    && MinSize(t) <= |nl.rids| < t.max && MinSize(t) <= |nr.rids| < t.max
    && DealView(t, t', q, a, l, r, nl, nr)
    && g' == g.(hi := g.hi[l := At(nr.keys[0])], lo := g.lo[r := At(nr.keys[0])])
  }

  /** What the clauses about children need to know about a redistribution. */
  ghost predicate DealCore(t: Tree, g: Shape, q: int, a: int, l: int, r: int, nl: Node, nr: Node, t': Tree, g': Shape) {
    && Siblings(t, g, q, a, l, r) && NodesOk(t, g) && KidsOk(t, g) && KeysOk(t, g)
    && |t.pages[l].rids| > 0 && |t.pages[r].rids| > 0
    && SameLinks(nl, t.pages[l]) && SameLinks(nr, t.pages[r])
    && nl.keys + nr.keys == t.pages[l].keys + t.pages[r].keys
    && nl.rids + nr.rids == t.pages[l].rids + t.pages[r].rids
    && |nl.keys| == |nl.rids| && |nr.keys| == |nr.rids|
    && DealView(t, t', q, a, l, r, nl, nr)
    && g' == g.(hi := g.hi[l := At(nr.keys[0])], lo := g.lo[r := At(nr.keys[0])])
  }

  lemma DealToCore(t: Tree, g: Shape, x: int, q: int, a: int, l: int, r: int, nl: Node, nr: Node, t': Tree, g': Shape)
    requires Deal(t, g, x, q, a, l, r, nl, nr, t', g')
    ensures DealCore(t, g, q, a, l, r, nl, nr, t', g')
  {
    assert SizeOk(t, g, l, x) && SizeOk(t, g, r, x);
  }

  function Row(t: Tree, l: int, r: int): (row: seq<Rid>)
    requires l in t.pages && r in t.pages
  {
    t.pages[l].rids + t.pages[r].rids
  }

  function RowKeys(t: Tree, l: int, r: int): (row: seq<int>)
    requires l in t.pages && r in t.pages
  {
    t.pages[l].keys + t.pages[r].keys
  }

  /** Slot `i` of the children of `l` and `r` seen as one row. */
  ghost predicate RowSlot(t: Tree, g: Shape, l: int, r: int, i: int)
    requires DomOk(t, g) && l in g.ht && r in g.ht && 0 <= i < |Row(t, l, r)| == |RowKeys(t, l, r)|
  {
    var row := Row(t, l, r);
    var c := row[i].page;
    && c in g.ht && row[i] == Rid(c, -1) && g.ht[c] + 1 == g.ht[l]
    && (i == 0 ==> g.lo[c] == g.lo[l])
    && (i > 0 ==> g.lo[c].At?)
    && (g.lo[c].At? ==> RowKeys(t, l, r)[i] == g.lo[c].k)
    && (i + 1 == |row| ==> g.hi[c] == g.hi[r])
    && (i + 1 < |row| ==> row[i + 1].page in g.ht && g.hi[c] == g.lo[row[i + 1].page])
    && (t.pages[c].parent == l || t.pages[c].parent == r)
  }

  lemma RowKid(t: Tree, g: Shape, q: int, a: int, l: int, r: int, i: int)
    requires Siblings(t, g, q, a, l, r) && KidsOk(t, g) && KeysOk(t, g)
    requires g.ht[l] > 0 && 0 <= i < |Row(t, l, r)| && |t.pages[l].rids| > 0 && |t.pages[r].rids| > 0
    ensures RowSlot(t, g, l, r, i)
  {
    var n := |t.pages[l].rids|;
    if i < n {
      assert KidOk(t, g, l, i) && KeyOk(t, g, l, i);
    } else {
      assert KidOk(t, g, r, i - n) && KeyOk(t, g, r, i - n);
    }
    if i + 1 == n {
      assert KidOk(t, g, r, 0);
    }
  }

  lemma {:induction false} RowApart(t: Tree, g: Shape, q: int, a: int, l: int, r: int, i: int, j: int)
    requires Siblings(t, g, q, a, l, r) && KidsOk(t, g) && KeysOk(t, g) && NodesOk(t, g)
    requires g.ht[l] > 0 && |t.pages[l].rids| > 0 && |t.pages[r].rids| > 0
    requires 0 <= i < j < |Row(t, l, r)|
    ensures Row(t, l, r)[i].page in g.ht && Row(t, l, r)[j].page in g.ht
    ensures g.lo[Row(t, l, r)[j].page].At?
    ensures Apart(g.lo[Row(t, l, r)[i].page], g.lo[Row(t, l, r)[j].page])
    ensures Apart(g.lo[Row(t, l, r)[j].page], g.hi[r])
    decreases |Row(t, l, r)| - i
  {
    RowKid(t, g, q, a, l, r, i);
    RowKid(t, g, q, a, l, r, i + 1);
    assert NodeOk(t, g, Row(t, l, r)[i].page) && NodeOk(t, g, Row(t, l, r)[i + 1].page);
    if i + 1 < j {
      RowApart(t, g, q, a, l, r, i + 1, j);
    } else if j + 1 < |Row(t, l, r)| {
      RowApart(t, g, q, a, l, r, j, j + 1);
    }
  }

  /** Only `l` and `r` hold a child that appears in the row. */
  lemma RowOnly(t: Tree, g: Shape, q: int, a: int, l: int, r: int, u: int, j: int)
    requires Siblings(t, g, q, a, l, r) && KidsOk(t, g) && KeysOk(t, g)
    requires g.ht[l] > 0 && |t.pages[l].rids| > 0 && |t.pages[r].rids| > 0
    requires u in g.ht && u != l && u != r && g.ht[u] > 0 && 0 <= j < |t.pages[u].rids|
    ensures t.pages[u].rids[j] !in Row(t, l, r)
  {
    assert KidOk(t, g, u, j);
    if t.pages[u].rids[j] in Row(t, l, r) {
      var i :| 0 <= i < |Row(t, l, r)| && Row(t, l, r)[i] == t.pages[u].rids[j];
      RowKid(t, g, q, a, l, r, i);
    }
  }

  // ---------------------------------------------------------------- redistribution keeps the invariant

  /** The new boundary between `l` and `r` lies strictly inside the interval of both together. */
  lemma DealBoundary(t: Tree, g: Shape, q: int, a: int, l: int, r: int, nl: Node, nr: Node, t': Tree, g': Shape)
    requires DealCore(t, g, q, a, l, r, nl, nr, t', g')
    ensures Apart(g.lo[l], At(nr.keys[0])) && Apart(At(nr.keys[0]), g.hi[r])
    ensures g.ht[l] > 0 ==> nr.rids[0].page in g.ht && g.lo[nr.rids[0].page] == At(nr.keys[0])
  {
    var b := |nl.keys|;
    assert NodeOk(t, g, l) && NodeOk(t, g, r);
    assert (nl.keys + nr.keys)[b] == nr.keys[0] && (nl.rids + nr.rids)[b] == nr.rids[0];
    if g.ht[l] > 0 {
      RowApart(t, g, q, a, l, r, 0, b);
      RowKid(t, g, q, a, l, r, 0);
      RowKid(t, g, q, a, l, r, b);
    } else {
      LeafRow(t, g, l, r);
    }
  }

  /** The keys of two neighbouring leaves form one sorted row inside their joint interval. */
  lemma LeafRow(t: Tree, g: Shape, l: int, r: int)
    requires DomOk(t, g) && l in g.ht && r in g.ht && g.ht[l] == 0 == g.ht[r]
    requires NodeOk(t, g, l) && NodeOk(t, g, r)
    requires g.hi[l] == g.lo[r] && g.lo[r].At?
    ensures Sorted(RowKeys(t, l, r)) && Within(RowKeys(t, l, r), g.lo[l], g.hi[r])
    ensures g.lo[l].At? ==> |RowKeys(t, l, r)| > 0 && RowKeys(t, l, r)[0] == g.lo[l].k
  {
    var ks := RowKeys(t, l, r);
    var n := |t.pages[l].keys|;
    forall i | 0 <= i < |ks|
      ensures i < n ==> ks[i] == t.pages[l].keys[i]
      ensures i >= n ==> ks[i] == t.pages[r].keys[i - n]
    {
    }
  }

  lemma DealNode(t: Tree, g: Shape, x: int, q: int, a: int, l: int, r: int, nl: Node, nr: Node, t': Tree, g': Shape,
                 u: int)
    requires Deal(t, g, x, q, a, l, r, nl, nr, t', g') && DomOk(t', g') && u in g.ht
    requires Apart(g.lo[l], At(nr.keys[0])) && Apart(At(nr.keys[0]), g.hi[r])
    ensures NodeOk(t', g', u) && SizeOk(t', g', u, NO_PAGE)
  {
    DealToCore(t, g, x, q, a, l, r, nl, nr, t', g');
    assert NodeOk(t, g, u) && SizeOk(t, g, u, x);
    if u == l || u == r {
      DealLeaf(t, g, q, a, l, r, nl, nr, t', g');
      assert KidOk(t, g, q, a) && KidOk(t, g, q, a + 1) && UpOk(t, g, u);
    } else {
      DealPage(t, g, q, a, l, r, nl, nr, t', u);
    }
  }

  lemma DealNodes(t: Tree, g: Shape, x: int, q: int, a: int, l: int, r: int, nl: Node, nr: Node, t': Tree, g': Shape)
    requires Deal(t, g, x, q, a, l, r, nl, nr, t', g')
    ensures DomOk(t', g') && NodesOk(t', g') && SizesOk(t', g', NO_PAGE)
  {
    DealToCore(t, g, x, q, a, l, r, nl, nr, t', g');
    DealBoundary(t, g, q, a, l, r, nl, nr, t', g');
    assert DomOk(t', g');
    forall u | u in g'.ht ensures NodeOk(t', g', u) && SizeOk(t', g', u, NO_PAGE) {
      DealNode(t, g, x, q, a, l, r, nl, nr, t', g', u);
    }
  }

  /** What redistribution does to a page other than `l` and `r`. */
  lemma DealPage(t: Tree, g: Shape, q: int, a: int, l: int, r: int, nl: Node, nr: Node, t': Tree, u: int)
    requires DealView(t, t', q, a, l, r, nl, nr) && u in t.pages && u != l && u != r
    ensures t'.pages[u].rids == t.pages[u].rids && |t'.pages[u].keys| == |t.pages[u].keys|
    ensures u != q ==> t'.pages[u].keys == t.pages[u].keys
    ensures t'.pages[u].leaf == t.pages[u].leaf && t'.pages[u].prev == t.pages[u].prev
    ensures t'.pages[u].next == t.pages[u].next
    ensures u == q || (nl.leaf && nr.leaf) || Rid(u, -1) !in nl.rids + nr.rids ==>
      t'.pages[u].parent == t.pages[u].parent
    ensures u != q && !nl.leaf && Rid(u, -1) in nl.rids ==> t'.pages[u].parent == l
    ensures u != q && !nr.leaf && Rid(u, -1) !in nl.rids && Rid(u, -1) in nr.rids ==> t'.pages[u].parent == r
  {
  }

  /** A slot whose child, neighbour and own interval are untouched stays as it is. */
  lemma KidSame(t: Tree, g: Shape, t': Tree, g': Shape, u: int, i: int)
    requires DomOk(t, g) && DomOk(t', g') && g'.ht == g.ht && u in g.ht && 0 <= i < |t.pages[u].rids|
    requires KidOk(t, g, u, i) && KeyOk(t, g, u, i)
    requires t'.pages[u].rids == t.pages[u].rids
    requires i < |t.pages[u].keys| && i < |t'.pages[u].keys|
    requires t'.pages[u].keys[i] == t.pages[u].keys[i]
    requires g'.lo[u] == g.lo[u] || i > 0
    requires g'.hi[u] == g.hi[u] || i + 1 < |t.pages[u].rids|
    requires t'.pages[t.pages[u].rids[i].page].parent == u
    requires g'.lo[t.pages[u].rids[i].page] == g.lo[t.pages[u].rids[i].page]
    requires g'.hi[t.pages[u].rids[i].page] == g.hi[t.pages[u].rids[i].page]
    requires i + 1 < |t.pages[u].rids| ==> g'.lo[t.pages[u].rids[i + 1].page] == g.lo[t.pages[u].rids[i + 1].page]
    ensures KidOk(t', g', u, i) && KeyOk(t', g', u, i)
  {
  }

  lemma DealLeaf(t: Tree, g: Shape, q: int, a: int, l: int, r: int, nl: Node, nr: Node, t': Tree, g': Shape)
    requires DealCore(t, g, q, a, l, r, nl, nr, t', g') && DomOk(t', g')
    requires Apart(g.lo[l], At(nr.keys[0])) && Apart(At(nr.keys[0]), g.hi[r])
    ensures NodeOk(t', g', l) && NodeOk(t', g', r)
  {
    assert NodeOk(t, g, l) && NodeOk(t, g, r);
    if g.ht[l] == 0 {
      LeafRow(t, g, l, r);
      DealtKeys(RowKeys(t, l, r), nl.keys, nr.keys, g.lo[l], g.hi[r]);
    }
  }

  /** A sorted row cut in two gives two sorted parts on either side of the second part's first key. */
  lemma DealtKeys(ks: seq<int>, a: seq<int>, b: seq<int>, lo: Bound, hi: Bound)
    requires Sorted(ks) && Within(ks, lo, hi) && ks == a + b && |b| > 0
    ensures Sorted(a) && Within(a, lo, At(b[0])) && Sorted(b) && Within(b, At(b[0]), hi)
    ensures |a| > 0 ==> a[0] == ks[0]
  {
    assert forall i | 0 <= i < |a| :: a[i] == ks[i];
    assert forall i | 0 <= i < |b| :: b[i] == ks[|a| + i];
  }

  /** Slot `j` of the row, now slot `i` of page `u`. */
  lemma KidFromRow(t: Tree, g: Shape, l: int, r: int, j: int, t': Tree, g': Shape, u: int, i: int)
    requires DomOk(t, g) && DomOk(t', g') && l in g.ht && r in g.ht && u in g'.ht && g'.ht[u] == g.ht[l]
    requires 0 <= j < |Row(t, l, r)| == |RowKeys(t, l, r)| && RowSlot(t, g, l, r, j)
    requires 0 <= i < |t'.pages[u].rids| == |t'.pages[u].keys|
    requires t'.pages[u].rids[i] == Row(t, l, r)[j] && t'.pages[u].keys[i] == RowKeys(t, l, r)[j]
    requires Row(t, l, r)[j].page in g'.ht && g'.ht[Row(t, l, r)[j].page] == g.ht[Row(t, l, r)[j].page]
    requires t'.pages[Row(t, l, r)[j].page].parent == u
    requires g'.lo[Row(t, l, r)[j].page] == g.lo[Row(t, l, r)[j].page]
    requires g'.hi[Row(t, l, r)[j].page] == g.hi[Row(t, l, r)[j].page]
    requires if i == 0 then g'.lo[u] == g.lo[Row(t, l, r)[j].page] else j > 0
    requires i + 1 == |t'.pages[u].rids| ==> g'.hi[u] == g.hi[Row(t, l, r)[j].page]
    requires i + 1 < |t'.pages[u].rids| ==> j + 1 < |Row(t, l, r)| && t'.pages[u].rids[i + 1] == Row(t, l, r)[j + 1]
    requires i + 1 < |t'.pages[u].rids| ==> Row(t, l, r)[j + 1].page in g'.ht
    requires i + 1 < |t'.pages[u].rids| ==> g'.lo[Row(t, l, r)[j + 1].page] == g.lo[Row(t, l, r)[j + 1].page]
    ensures KidOk(t', g', u, i) && KeyOk(t', g', u, i)
  {
  }

  /** A child that appears in the row is neither `q`, `l` nor `r`, and belongs to its new page. */
  lemma DealMoved(t: Tree, g: Shape, q: int, a: int, l: int, r: int, nl: Node, nr: Node, t': Tree, g': Shape, j: int)
    requires DealCore(t, g, q, a, l, r, nl, nr, t', g') && g.ht[l] > 0
    requires 0 <= j < |Row(t, l, r)|
    ensures |Row(t, l, r)| == |RowKeys(t, l, r)| && RowSlot(t, g, l, r, j)
    ensures ghost var c := Row(t, l, r)[j].page;
      && g'.lo[c] == g.lo[c] && g'.hi[c] == g.hi[c]
      && t'.pages[c].parent == if j < |nl.rids| then l else r
  {
    assert NodeOk(t, g, l) && NodeOk(t, g, r);
    RowKid(t, g, q, a, l, r, j);
    var c := Row(t, l, r)[j].page;
    assert Row(t, l, r) == nl.rids + nr.rids;
    if j < |nl.rids| {
      assert nl.rids[j] == Rid(c, -1);
    } else {
      assert nr.rids[j - |nl.rids|] == Rid(c, -1);
      DealDistinct(t, g, q, a, l, r, nl, nr, j - |nl.rids|);
    }
    DealPage(t, g, q, a, l, r, nl, nr, t', c);
  }

  /** The row dealt out again: slot by slot. */
  lemma DealtSlot(t: Tree, l: int, r: int, nl: Node, nr: Node, j: int)
    requires l in t.pages && r in t.pages && |nl.keys| == |nl.rids| && |nr.keys| == |nr.rids|
    requires Row(t, l, r) == nl.rids + nr.rids && RowKeys(t, l, r) == nl.keys + nr.keys
    requires 0 <= j < |Row(t, l, r)|
    ensures |Row(t, l, r)| == |RowKeys(t, l, r)| == |nl.rids| + |nr.rids|
    ensures j < |nl.rids| ==> nl.rids[j] == Row(t, l, r)[j] && nl.keys[j] == RowKeys(t, l, r)[j]
    ensures j >= |nl.rids| ==>
      nr.rids[j - |nl.rids|] == Row(t, l, r)[j] && nr.keys[j - |nl.rids|] == RowKeys(t, l, r)[j]
  {
  }

  lemma DealKidLeft(t: Tree, g: Shape, q: int, a: int, l: int, r: int, nl: Node, nr: Node, t': Tree, g': Shape, i: int)
    requires DealCore(t, g, q, a, l, r, nl, nr, t', g') && DomOk(t', g') && g.ht[l] > 0
    requires 0 <= i < |nl.rids|
    ensures KidOk(t', g', l, i) && KeyOk(t', g', l, i)
  {
    DealBoundary(t, g, q, a, l, r, nl, nr, t', g');
    DealtSlot(t, l, r, nl, nr, i);
    DealtSlot(t, l, r, nl, nr, i + 1);
    DealMoved(t, g, q, a, l, r, nl, nr, t', g', i);
    DealMoved(t, g, q, a, l, r, nl, nr, t', g', i + 1);
    KidFromRow(t, g, l, r, i, t', g', l, i);
  }

  lemma DealKidRight(t: Tree, g: Shape, q: int, a: int, l: int, r: int, nl: Node, nr: Node, t': Tree, g': Shape, j: int)
    requires DealCore(t, g, q, a, l, r, nl, nr, t', g') && DomOk(t', g') && g.ht[l] > 0
    requires |nl.rids| <= j < |nl.rids| + |nr.rids|
    ensures KidOk(t', g', r, j - |nl.rids|) && KeyOk(t', g', r, j - |nl.rids|)
  {
    DealBoundary(t, g, q, a, l, r, nl, nr, t', g');
    DealtSlot(t, l, r, nl, nr, j);
    DealMoved(t, g, q, a, l, r, nl, nr, t', g', j);
    if j + 1 < |nl.rids| + |nr.rids| {
      DealtSlot(t, l, r, nl, nr, j + 1);
      DealMoved(t, g, q, a, l, r, nl, nr, t', g', j + 1);
    }
    KidFromRow(t, g, l, r, j, t', g', r, j - |nl.rids|);
  }

  lemma DealDistinct(t: Tree, g: Shape, q: int, a: int, l: int, r: int, nl: Node, nr: Node, i: int)
    requires Siblings(t, g, q, a, l, r) && KidsOk(t, g) && KeysOk(t, g) && NodesOk(t, g)
    requires g.ht[l] > 0 && |t.pages[l].rids| > 0 && |t.pages[r].rids| > 0
    requires Row(t, l, r) == nl.rids + nr.rids && 0 <= i < |nr.rids|
    ensures nr.rids[i] !in nl.rids
  {
    if nr.rids[i] in nl.rids {
      var j :| 0 <= j < |nl.rids| && nl.rids[j] == nr.rids[i];
      assert Row(t, l, r)[|nl.rids| + i] == Row(t, l, r)[j];
      RowApart(t, g, q, a, l, r, j, |nl.rids| + i);
    }
  }

  lemma DealKidParent(t: Tree, g: Shape, q: int, a: int, l: int, r: int, nl: Node, nr: Node, t': Tree, g': Shape,
                      i: int)
    requires DealCore(t, g, q, a, l, r, nl, nr, t', g') && DomOk(t', g')
    requires 0 <= i < |t.pages[q].rids| && i != a && i != a + 1
    ensures KidOk(t', g', q, i) && KeyOk(t', g', q, i)
  {
    assert KidOk(t, g, q, i) && KeyOk(t, g, q, i);
    var n := t.pages[q];
    KidsDiffer(t, g, q, i, a);
    KidsDiffer(t, g, q, i, a + 1);
    if i + 1 < |n.rids| && i != a {
      KidsDiffer(t, g, q, i + 1, a + 1);
    }
    assert NodeOk(t, g, l) && NodeOk(t, g, r);
    if g.ht[l] > 0 {
      RowOnly(t, g, q, a, l, r, q, i);
    }
    DealPage(t, g, q, a, l, r, nl, nr, t', n.rids[i].page);
    KidSame(t, g, t', g', q, i);
  }

  lemma KidsDiffer(t: Tree, g: Shape, q: int, i: int, j: int)
    requires DomOk(t, g) && NodesOk(t, g) && KidsOk(t, g) && q in g.ht && g.ht[q] > 0
    requires 0 <= i < |t.pages[q].rids| && 0 <= j < |t.pages[q].rids| && i != j
    ensures t.pages[q].rids[i].page != t.pages[q].rids[j].page
  {
    if i < j { KidsDistinct(t, g, q, i, j); } else { KidsDistinct(t, g, q, j, i); }
  }

  lemma DealKidPair(t: Tree, g: Shape, q: int, a: int, l: int, r: int, nl: Node, nr: Node, t': Tree, g': Shape)
    requires DealCore(t, g, q, a, l, r, nl, nr, t', g') && DomOk(t', g')
    ensures KidOk(t', g', q, a) && KeyOk(t', g', q, a)
    ensures KidOk(t', g', q, a + 1) && KeyOk(t', g', q, a + 1)
  {
    assert KidOk(t, g, q, a) && KeyOk(t, g, q, a);
    assert KidOk(t, g, q, a + 1) && KeyOk(t, g, q, a + 1);
    if a + 2 < |t.pages[q].rids| {
      KidsDiffer(t, g, q, a + 2, a + 1);
    }
    if g.lo[l].At? {
      DealFirstKey(t, g, q, a, l, r, nl, nr, t', g');
    }
  }

  lemma DealFirstKey(t: Tree, g: Shape, q: int, a: int, l: int, r: int, nl: Node, nr: Node, t': Tree, g': Shape)
    requires DealCore(t, g, q, a, l, r, nl, nr, t', g') && g.lo[l].At?
    ensures nl.keys[0] == g.lo[l].k
  {
    assert NodeOk(t, g, l) && NodeOk(t, g, r);
    assert (nl.keys + nr.keys)[0] == nl.keys[0];
    if g.ht[l] > 0 {
      RowKid(t, g, q, a, l, r, 0);
    }
  }

  lemma DealKidOther(t: Tree, g: Shape, q: int, a: int, l: int, r: int, nl: Node, nr: Node, t': Tree, g': Shape, u: int,
                     i: int)
    requires DealCore(t, g, q, a, l, r, nl, nr, t', g') && DomOk(t', g')
    requires u in g.ht && u != q && u != l && u != r && g.ht[u] > 0 && 0 <= i < |t.pages[u].rids|
    ensures KidOk(t', g', u, i) && KeyOk(t', g', u, i)
  {
    assert KidOk(t, g, u, i) && KeyOk(t, g, u, i);
    assert KidOk(t, g, q, a) && KidOk(t, g, q, a + 1);
    if i + 1 < |t.pages[u].rids| { assert KidOk(t, g, u, i + 1); }
    assert NodeOk(t, g, l) && NodeOk(t, g, r) && NodeOk(t, g, u);
    if g.ht[l] > 0 {
      RowOnly(t, g, q, a, l, r, u, i);
    }
    DealPage(t, g, q, a, l, r, nl, nr, t', t.pages[u].rids[i].page);
    DealPage(t, g, q, a, l, r, nl, nr, t', u);
    KidSame(t, g, t', g', u, i);
  }

  lemma DealKids(t: Tree, g: Shape, q: int, a: int, l: int, r: int, nl: Node, nr: Node, t': Tree, g': Shape)
    requires DealCore(t, g, q, a, l, r, nl, nr, t', g') && DomOk(t', g')
    ensures KidsOk(t', g') && KeysOk(t', g')
  {
    forall u, i | u in g'.ht && g'.ht[u] > 0 && 0 <= i < |t'.pages[u].rids|
      ensures KidOk(t', g', u, i) && KeyOk(t', g', u, i)
    {
      if u == l {
        DealKidLeft(t, g, q, a, l, r, nl, nr, t', g', i);
      } else if u == r {
        DealKidRight(t, g, q, a, l, r, nl, nr, t', g', |nl.rids| + i);
      } else if u == q {
        if i == a || i == a + 1 {
          DealKidPair(t, g, q, a, l, r, nl, nr, t', g');
        } else {
          DealKidParent(t, g, q, a, l, r, nl, nr, t', g', i);
        }
      } else {
        DealKidOther(t, g, q, a, l, r, nl, nr, t', g', u, i);
      }
    }
  }

  lemma DealUp(t: Tree, g: Shape, x: int, q: int, a: int, l: int, r: int, nl: Node, nr: Node, t': Tree, g': Shape,
               u: int)
    requires Deal(t, g, x, q, a, l, r, nl, nr, t', g') && DomOk(t', g') && u in g.ht
    ensures UpOk(t', g', u)
  {
    DealToCore(t, g, x, q, a, l, r, nl, nr, t', g');
    assert UpOk(t, g, u) && NodeOk(t, g, l) && NodeOk(t, g, r);
    var row := Row(t, l, r);
    assert row == nl.rids + nr.rids;
    if g.ht[l] > 0 && Rid(u, -1) in row {
      var j :| 0 <= j < |row| && row[j] == Rid(u, -1);
      DealMoved(t, g, q, a, l, r, nl, nr, t', g', j);
      assert UpOk(t, g, l);
      if j < |nl.rids| { assert nl.rids[j] == Rid(u, -1); } else { assert nr.rids[j - |nl.rids|] == Rid(u, -1); }
    } else {
      if u != l && u != r { DealPage(t, g, q, a, l, r, nl, nr, t', u); }
      var w := t.pages[u].parent;
      if w in g.ht && w != l && w != r { DealPage(t, g, q, a, l, r, nl, nr, t', w); }
    }
  }

  lemma DealRing(t: Tree, g: Shape, x: int, q: int, a: int, l: int, r: int, nl: Node, nr: Node, t': Tree, g': Shape)
    requires Deal(t, g, x, q, a, l, r, nl, nr, t', g') && DomOk(t', g')
    ensures RingOk(t', g')
  {
    forall i | 0 <= i < |g'.leaves| ensures RingSlot(t', g', i) {
      assert RingSlot(t, g, i);
    }
  }

  lemma DealLeaves(t: Tree, g: Shape, x: int, q: int, a: int, l: int, r: int, nl: Node, nr: Node, t': Tree, g': Shape)
    requires Deal(t, g, x, q, a, l, r, nl, nr, t', g') && DomOk(t', g')
    ensures LeavesOk(t', g')
  {
    forall i | 0 <= i < |g'.leaves| ensures LeafAt(g', i) {
      DealLeafAt(t, g, l, r, nr.keys[0], g', i);
    }
  }

  lemma DealLeafAt(t: Tree, g: Shape, l: int, r: int, b: int, g': Shape, i: int)
    requires DomOk(t, g) && NodesOk(t, g) && LeavesOk(t, g) && l in g.ht && r in g.ht
    requires g.hi[l] == g.lo[r] && g.lo[r].At? && g.ht[l] == g.ht[r] && l != r
    requires g' == g.(hi := g.hi[l := At(b)], lo := g.lo[r := At(b)])
    requires 0 <= i < |g.leaves|
    ensures LeafAt(g', i)
  {
    assert LeafAt(g, i);
    if g.ht[l] == 0 {
      var jl, jr := LeafIndex(t, g, l), LeafIndex(t, g, r);
      NextIs(t, g, jl, jr);
      if i > 0 { assert LeafAt(g, i - 1); }
      if i != jl && i < jl { LeafOrder(t, g, i, jl); } else if i != jl { LeafOrder(t, g, jl, i); }
      if i > 0 && i - 1 < jl {
        LeafOrder(t, g, i - 1, jl);
      } else if i > 0 && i - 1 != jl {
        LeafOrder(t, g, jl, i - 1);
      }
      if i != jr && i < jr { LeafOrder(t, g, i, jr); } else if i != jr { LeafOrder(t, g, jr, i); }
    } else {
      if i > 0 { assert LeafAt(g, i - 1); }
    }
  }

  /** The leaf that starts where leaf `i` ends is leaf `i + 1`. */
  lemma NextIs(t: Tree, g: Shape, i: int, j: int)
    requires DomOk(t, g) && NodesOk(t, g) && LeavesOk(t, g)
    requires 0 <= i < |g.leaves| && 0 <= j < |g.leaves| && LeafAt(g, i) && LeafAt(g, j)
    requires g.hi[g.leaves[i]].At? && g.hi[g.leaves[i]] == g.lo[g.leaves[j]]
    ensures j == i + 1
  {
    assert LeafAt(g, i + 1);
    assert NodeOk(t, g, g.leaves[i + 1]) && NodeOk(t, g, g.leaves[j]);
    LeafUnique(t, g, i + 1, j, g.hi[g.leaves[i]].k);
  }

  lemma DealInv(t: Tree, g: Shape, x: int, q: int, a: int, l: int, r: int, nl: Node, nr: Node, t': Tree, g': Shape)
    requires Deal(t, g, x, q, a, l, r, nl, nr, t', g')
    ensures Inv(t', g', NO_PAGE)
  {
    DealToCore(t, g, x, q, a, l, r, nl, nr, t', g');
    DealNodes(t, g, x, q, a, l, r, nl, nr, t', g');
    DealKids(t, g, q, a, l, r, nl, nr, t', g');
    forall u | u in g'.ht ensures UpOk(t', g', u) {
      DealUp(t, g, x, q, a, l, r, nl, nr, t', g', u);
    }
    DealRing(t, g, x, q, a, l, r, nl, nr, t', g');
    DealLeaves(t, g, x, q, a, l, r, nl, nr, t', g');
  }
}
