/** Redistribution and merging as they act on the page map. */
module BTreeShrink {
  import opened Rids
  import opened BTreeState
  import opened BTreeOrder
  import opened BTreeInsert
  import opened BTreeSplit
  import opened BTreeMaintain
  import opened BTreeRebalance
  import opened BTreeMerge
  import opened BTreeKeep

  /** `l` and `r` now hold `nl` and `nr`; child `c` moved to `w`; the parent shows the first keys. */
  function Borrow(t: Tree, q: int, a: int, l: int, r: int, nl: Node, nr: Node, c: int, w: int): (t': Tree)
    requires q in t.pages && l in t.pages && r in t.pages && q != l && q != r
    requires 0 <= a && a + 1 < |t.pages[q].keys| && |nl.keys| > 0 && |nr.keys| > 0
    requires !nl.leaf ==> c in t.pages
  {
    var moved := t.pages[l := nl][r := nr];
    var adopted := if nl.leaf then moved else moved[c := moved[c].(parent := w)];
    t.(pages := adopted[q := adopted[q].(keys := adopted[q].keys[a := nl.keys[0]][a + 1 := nr.keys[0]])])
  }

  /** The children of `p` point back at it and are none of the three pages at hand. */
  ghost predicate PointBack(t: Tree, p: int, q: int, l: int, r: int)
    requires p in t.pages
  {
    forall u | Rid(u, -1) in t.pages[p].rids :: u in t.pages && t.pages[u].parent == p && u != q && u != l && u != r
  }

  lemma KidsPointBack(t: Tree, g: Shape, q: int, a: int, l: int, r: int, p: int)
    requires Siblings(t, g, q, a, l, r) && KidsOk(t, g) && (p == l || p == r) && g.ht[l] > 0
    ensures PointBack(t, p, q, l, r)
  {
    forall u | Rid(u, -1) in t.pages[p].rids
      ensures u in t.pages && t.pages[u].parent == p && u != q && u != l && u != r
    {
      var i :| 0 <= i < |t.pages[p].rids| && t.pages[p].rids[i] == Rid(u, -1);
      assert KidOk(t, g, p, i);
    }
  }

  lemma BorrowView(t: Tree, q: int, a: int, l: int, r: int, nl: Node, nr: Node, c: int, w: int)
    requires q in t.pages && l in t.pages && r in t.pages && q != l && q != r && l != r
    requires |t.pages[q].keys| == |t.pages[q].rids| && 0 <= a && a + 1 < |t.pages[q].keys|
    requires |nl.keys| > 0 && |nr.keys| > 0 && nl.leaf == nr.leaf
    requires !nl.leaf ==> c in t.pages && c != q && c != l && c != r
    requires !nl.leaf ==> PointBack(t, l, q, l, r) && PointBack(t, r, q, l, r)
    requires !nl.leaf ==> forall u | Rid(u, -1) in nl.rids :: u == c || Rid(u, -1) in t.pages[l].rids
    requires !nl.leaf ==> forall u | Rid(u, -1) in nr.rids :: u == c || Rid(u, -1) in t.pages[r].rids
    requires !nl.leaf ==>
      (w == l && Rid(c, -1) in nl.rids) || (w == r && Rid(c, -1) in nr.rids && Rid(c, -1) !in nl.rids)
    ensures DealView(t, Borrow(t, q, a, l, r, nl, nr, c, w), q, a, l, r, nl, nr)
  {
  }

  /** The shape after the boundary between `l` and `r` moved to `b`. */
  ghost function DealShape(g: Shape, l: int, r: int, b: int): (g': Shape) {
    g.(hi := g.hi[l := At(b)], lo := g.lo[r := At(b)])
  }

  lemma BorrowRightRows(L: Node, R: Node, nl: Node, nr: Node)
    requires |L.keys| == |L.rids| && 2 <= |R.keys| == |R.rids|
    requires nl == InsertPair(L, |L.keys|, R.keys[0], R.rids[0]) && nr == ErasePair(R, 0)
    ensures nl.rids == L.rids + [R.rids[0]] && nr.rids == R.rids[1..]
    ensures nl.keys + nr.keys == L.keys + R.keys && nl.rids + nr.rids == L.rids + R.rids
    ensures |nl.keys| == |nl.rids| == |L.rids| + 1 && |nr.keys| == |nr.rids| == |R.rids| - 1
    ensures SameLinks(nl, L) && SameLinks(nr, R)
  {
  }

  lemma BorrowLeftRows(L: Node, R: Node, m: int, nl: Node, nr: Node)
    requires 2 <= |L.keys| == |L.rids| && |R.keys| == |R.rids| && m == |L.keys| - 1
    requires nl == ErasePair(L, m) && nr == InsertPair(R, 0, L.keys[m], L.rids[m])
    ensures nl.rids == L.rids[..m] && nr.rids == [L.rids[m]] + R.rids
    ensures nl.keys + nr.keys == L.keys + R.keys && nl.rids + nr.rids == L.rids + R.rids
    ensures |nl.keys| == |nl.rids| == |L.rids| - 1 && |nr.keys| == |nr.rids| == |R.rids| + 1
    ensures SameLinks(nl, L) && SameLinks(nr, R)
  {
  }

  /** Moving the first entry of `r` to the end of `l`. */
  lemma BorrowRight(t: Tree, g: Shape, q: int, a: int, l: int, r: int, nl: Node, nr: Node)
    requires Inv(t, g, l) && Siblings(t, g, q, a, l, r)
    requires |t.pages[l].rids| == MinSize(t) - 1 && MinSize(t) < |t.pages[r].rids| < t.max
    requires nl == InsertPair(t.pages[l], |t.pages[l].keys|, t.pages[r].keys[0], t.pages[r].rids[0])
    requires nr == ErasePair(t.pages[r], 0)
    ensures q != l && q != r && |nl.keys| > 0 && |nr.keys| > 0 && (!nl.leaf ==> t.pages[r].rids[0].page in t.pages)
    ensures Deal(t, g, l, q, a, l, r, nl, nr, Borrow(t, q, a, l, r, nl, nr, t.pages[r].rids[0].page, l),
                 DealShape(g, l, r, nr.keys[0]))
  {
    BorrowRightRows(t.pages[l], t.pages[r], nl, nr);
    assert NodeOk(t, g, l) && NodeOk(t, g, r);
    BorrowRightView(t, g, q, a, l, r, nl, nr);
  }

  lemma BorrowRightView(t: Tree, g: Shape, q: int, a: int, l: int, r: int, nl: Node, nr: Node)
    requires Siblings(t, g, q, a, l, r) && KidsOk(t, g) && NodeOk(t, g, l) && NodeOk(t, g, r)
    requires |t.pages[r].rids| > 1 && nl.leaf == t.pages[l].leaf && nr.leaf == t.pages[r].leaf
    requires |nl.keys| > 0 && |nr.keys| > 0
    requires nl.rids == t.pages[l].rids + [t.pages[r].rids[0]] && nr.rids == t.pages[r].rids[1..]
    ensures !nl.leaf ==> t.pages[r].rids[0].page in t.pages
    ensures DealView(t, Borrow(t, q, a, l, r, nl, nr, t.pages[r].rids[0].page, l), q, a, l, r, nl, nr)
  {
    var c := t.pages[r].rids[0].page;
    if !nl.leaf {
      assert KidOk(t, g, r, 0);
      KidsPointBack(t, g, q, a, l, r, l);
      KidsPointBack(t, g, q, a, l, r, r);
      assert t.pages[r].rids[0] in t.pages[r].rids;
      assert nl.rids[|nl.rids| - 1] == Rid(c, -1);
    }
    BorrowView(t, q, a, l, r, nl, nr, c, l);
  }

  /** Moving the last entry of `l` to the front of `r`. */
  lemma BorrowLeft(t: Tree, g: Shape, q: int, a: int, l: int, r: int, m: int, nl: Node, nr: Node)
    requires Inv(t, g, r) && Siblings(t, g, q, a, l, r)
    requires |t.pages[r].rids| == MinSize(t) - 1 && MinSize(t) < |t.pages[l].rids| < t.max
    requires m == |t.pages[l].keys| - 1 && nl == ErasePair(t.pages[l], m)
    requires nr == InsertPair(t.pages[r], 0, t.pages[l].keys[m], t.pages[l].rids[m])
    ensures q != l && q != r && |nl.keys| > 0 && |nr.keys| > 0 && (!nl.leaf ==> t.pages[l].rids[m].page in t.pages)
    ensures Deal(t, g, r, q, a, l, r, nl, nr, Borrow(t, q, a, l, r, nl, nr, t.pages[l].rids[m].page, r),
                 DealShape(g, l, r, nr.keys[0]))
  {
    BorrowLeftRows(t.pages[l], t.pages[r], m, nl, nr);
    BorrowLeftView(t, g, q, a, l, r, m, nl, nr);
  }

  lemma BorrowLeftView(t: Tree, g: Shape, q: int, a: int, l: int, r: int, m: int, nl: Node, nr: Node)
    requires Siblings(t, g, q, a, l, r) && KidsOk(t, g) && NodesOk(t, g)
    requires |t.pages[l].rids| > 1 && m == |t.pages[l].rids| - 1 && nl.leaf == t.pages[l].leaf
    requires nr.leaf == t.pages[r].leaf
    requires |nl.keys| > 0 && |nr.keys| > 0
    requires nl.rids == t.pages[l].rids[..m] && nr.rids == [t.pages[l].rids[m]] + t.pages[r].rids
    ensures !nl.leaf ==> t.pages[l].rids[m].page in t.pages
    ensures DealView(t, Borrow(t, q, a, l, r, nl, nr, t.pages[l].rids[m].page, r), q, a, l, r, nl, nr)
  {
    var c := t.pages[l].rids[m].page;
    assert NodeOk(t, g, l) && NodeOk(t, g, r);
    if !nl.leaf {
      assert KidOk(t, g, l, m);
      KidsPointBack(t, g, q, a, l, r, l);
      KidsPointBack(t, g, q, a, l, r, r);
      assert t.pages[l].rids[m] in t.pages[l].rids;
      assert nr.rids[0] == Rid(c, -1);
      if Rid(c, -1) in nl.rids {
        var i :| 0 <= i < m && t.pages[l].rids[i] == Rid(c, -1);
        KidsDistinct(t, g, l, i, m);
      }
    }
    BorrowView(t, q, a, l, r, nl, nr, c, r);
  }

  /** All that a redistribution guarantees. */
  lemma DealFacts(t: Tree, g: Shape, x: int, q: int, a: int, l: int, r: int, nl: Node, nr: Node, t': Tree, g': Shape)
    requires Deal(t, g, x, q, a, l, r, nl, nr, t', g')
    ensures Climbing(t', g', NO_PAGE, q, 0)
    ensures Flat(t'.pages, g'.leaves) == Flat(t.pages, g.leaves)
  {
    DealInv(t, g, x, q, a, l, r, nl, nr, t', g');
    if g.ht[l] > 0 {
      KeepDealInner(t, g, x, q, a, l, r, nl, nr, t', g');
    } else {
      KeepDealLeaf(t, g, x, q, a, l, r, nl, nr, t', g');
    }
  }

  // ---------------------------------------------------------------- merging

  /** The entries of `r` appended to `l`, and `r` taken out of the leaf ring. */
  function MergePages(t: Tree, l: int, r: int): (t': Tree)
    requires l in t.pages && r in t.pages
    requires t.pages[l].leaf ==> t.pages[r].next in t.pages && t.pages[r].prev in t.pages
  {
    var pages := t.pages[l := t.pages[l].(keys := RowKeys(t, l, r), rids := Row(t, l, r))];
    if t.pages[l].leaf then
      var unlinked := pages[t.pages[r].prev := pages[t.pages[r].prev].(next := t.pages[r].next)];
      t.(pages := unlinked[t.pages[r].next := unlinked[t.pages[r].next].(prev := t.pages[r].prev)],
         last := if t.last == r then l else t.last)
    else
      t.(pages := Reparent(pages, t.pages[r].rids, l))
  }

  /** The parent forgets `r` and shows the first key of `l`. */
  function MergeTree(t: Tree, q: int, a: int, l: int, r: int): (t': Tree)
    requires l in t.pages && r in t.pages
    requires t.pages[l].leaf ==> t.pages[r].next in t.pages && t.pages[r].prev in t.pages
    requires q in t.pages && |t.pages[q].keys| == |t.pages[q].rids| && 0 <= a && a + 1 < |t.pages[q].keys|
    requires |RowKeys(t, l, r)| > 0 && q != l
  {
    var m := MergePages(t, l, r);
    m.(pages := m.pages[q := ErasePair(t.pages[q].(keys := t.pages[q].keys[a := RowKeys(t, l, r)[0]]), a + 1)])
  }

  lemma MergeTreeView(t: Tree, g: Shape, x: int, q: int, a: int, l: int, r: int)
    requires Inv(t, g, x) && Siblings(t, g, q, a, l, r) && |RowKeys(t, l, r)| > 0
    ensures t.pages[l].leaf ==>
      t.pages[r].next in t.pages && t.pages[r].prev == l && t.pages[r].next != l && t.pages[r].next != r
    ensures !t.pages[l].leaf ==> PointBack(t, r, q, l, r)
    ensures q != l && q != r && MergeView(t, MergeTree(t, q, a, l, r), q, a, l, r)
  {
    assert NodeOk(t, g, l) && NodeOk(t, g, r) && NodeOk(t, g, q);
    if g.ht[l] == 0 {
      RingNeighbours(t, g, x, l, r);
    } else {
      KidsPointBack(t, g, q, a, l, r, r);
    }
    MergeLeafView(t, q, a, l, r, g);
  }

  lemma RingNeighbours(t: Tree, g: Shape, x: int, l: int, r: int)
    requires Frame(t, g, x) && l in g.ht && r in g.ht && g.ht[l] == 0 == g.ht[r] && g.hi[l] == g.lo[r] && g.lo[r].At?
    ensures t.pages[r].next in t.pages && t.pages[r].prev == l && t.pages[r].next != l && t.pages[r].next != r
    ensures t.pages[r].next in g.ht ==> g.ht[t.pages[r].next] == 0
  {
    MergeLeafIndex(t, g, l, r);
    NextLeaf(t, g, r);
    var i := LeafIndex(t, g, r);
    if i + 1 < |g.leaves| {
      assert LeafAt(g, i + 1);
      LeafElse(t, g, i - 1, i + 1);
    }
  }

  lemma MergeLeafView(t: Tree, q: int, a: int, l: int, r: int, g: Shape)
    requires DomOk(t, g) && l in g.ht && r in g.ht && q in g.ht && l != r && q != l && q != r
    requires |t.pages[q].keys| == |t.pages[q].rids| && 0 <= a && a + 1 < |t.pages[q].keys|
    requires |RowKeys(t, l, r)| > 0
    requires t.pages[l].leaf ==>
      t.pages[r].next in t.pages && t.pages[r].prev == l && t.pages[r].next != l && t.pages[r].next != q
    requires !t.pages[l].leaf ==> PointBack(t, r, q, l, r)
    ensures MergeView(t, MergeTree(t, q, a, l, r), q, a, l, r)
  {
  }

  /** All that a merge guarantees. */
  lemma MergeFacts(t: Tree, g: Shape, x: int, q: int, a: int, l: int, r: int)
    requires Inv(t, g, x) && (x == l || x == r) && Siblings(t, g, q, a, l, r)
    requires MinSize(t) <= |Row(t, l, r)| < t.max
    ensures t.pages[l].leaf ==>
      t.pages[r].next in t.pages && t.pages[r].prev == l && t.pages[r].next != l && t.pages[r].next != r
    ensures !t.pages[l].leaf ==> PointBack(t, r, q, l, r)
    ensures |RowKeys(t, l, r)| > 0 && q != l && q != r && t.pages[l].leaf == t.pages[r].leaf
    ensures Climbing(MergeTree(t, q, a, l, r), MergeShape(t, g, l, r), q, q, 0)
    ensures Flat(MergeTree(t, q, a, l, r).pages, MergeShape(t, g, l, r).leaves) == Flat(t.pages, g.leaves)
  {
    MergeTreeView(t, g, x, q, a, l, r);
    var t', g' := MergeTree(t, q, a, l, r), MergeShape(t, g, l, r);
    MergeInv(t, g, x, q, a, l, r, t', g');
    assert NodeOk(t, g, l) && NodeOk(t, g, r);
    if g.ht[l] > 0 {
      KeepMergeInner(t, g, x, q, a, l, r, t', g');
    } else {
      KeepMergeLeaf(t, g, x, q, a, l, r, t', g');
    }
  }
}
