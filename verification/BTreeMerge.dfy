/** Merging two neighbouring siblings, and dropping a root that has a single child left. */
module BTreeMerge {
  import opened Rids
  import opened BTreeState
  import opened BTreeOrder
  import opened BTreeInsert
  import opened BTreeRebalance

  /** The pages after `r` has been merged into `l`.  The page of `r` itself stays behind, unused. */
  ghost predicate MergeView(t: Tree, t': Tree, q: int, a: int, l: int, r: int) {
    && q in t.pages && l in t.pages && r in t.pages && q != l && q != r && l != r
    && |t.pages[q].keys| == |t.pages[q].rids| && 0 <= a && a + 1 < |t.pages[q].keys|
    && |RowKeys(t, l, r)| > 0
    && t'.pages.Keys == t.pages.Keys
    && t'.pages[l] == t.pages[l].(keys := RowKeys(t, l, r), rids := Row(t, l, r),
                                  next := if t.pages[l].leaf then t.pages[r].next else t.pages[l].next)
    && t'.pages[q] == ErasePair(t.pages[q].(keys := t.pages[q].keys[a := RowKeys(t, l, r)[0]]), a + 1)
    && (forall u | u in t.pages && u != q && u != l ::
          t'.pages[u] == if !t.pages[l].leaf && Rid(u, -1) in t.pages[r].rids then t.pages[u].(parent := l)
                         else if t.pages[l].leaf && u == t.pages[r].next then t.pages[u].(prev := l)
                         else t.pages[u])
    && t' == t.(pages := t'.pages, last := if t.pages[l].leaf && t.last == r then l else t.last)
  }

  ghost function RemoveAt(ls: seq<int>, i: int): (m: seq<int>)
    requires 0 <= i < |ls|
  {
    ls[..i] + ls[i + 1..]
  }

  ghost function MergeShape(t: Tree, g: Shape, l: int, r: int): (g': Shape)
    requires DomOk(t, g) && LeavesOk(t, g) && l in g.ht && r in g.ht
  {
    Shape(g.ht - {r}, g.lo - {r}, g.hi[l := g.hi[r]] - {r},
          if g.ht[r] == 0 then RemoveAt(g.leaves, LeafIndex(t, g, r)) else g.leaves)
  }

  ghost predicate Merge(t: Tree, g: Shape, x: int, q: int, a: int, l: int, r: int, t': Tree, g': Shape) {
    && Inv(t, g, x) && (x == l || x == r)
    && Siblings(t, g, q, a, l, r)
    && MinSize(t) <= |Row(t, l, r)| < t.max
    && MergeView(t, t', q, a, l, r)
    && g' == MergeShape(t, g, l, r)
  }

  /** What merging does to a page other than `q` and `l`. */
  lemma MergePage(t: Tree, t': Tree, q: int, a: int, l: int, r: int, u: int)
    requires MergeView(t, t', q, a, l, r) && u in t.pages && u != q && u != l
    ensures t'.pages[u].rids == t.pages[u].rids && t'.pages[u].keys == t.pages[u].keys
    ensures t'.pages[u].leaf == t.pages[u].leaf && t'.pages[u].next == t.pages[u].next
    ensures t.pages[l].leaf || Rid(u, -1) !in t.pages[r].rids ==> t'.pages[u].parent == t.pages[u].parent
    ensures !t.pages[l].leaf && Rid(u, -1) in t.pages[r].rids ==> t'.pages[u].parent == l
    ensures t'.pages[u].prev == if t.pages[l].leaf && u == t.pages[r].next then l else t.pages[u].prev
  {
  }

  lemma MergeSizes(t: Tree, g: Shape, x: int, q: int, a: int, l: int, r: int, t': Tree, g': Shape)
    requires Merge(t, g, x, q, a, l, r, t', g')
    ensures |t.pages[l].rids| > 0 && |t.pages[r].rids| > 0
    ensures l != t.root && r != t.root && q != l && q != r
    ensures t.pages[l].parent == q == t.pages[r].parent
    ensures t.pages[l].leaf == (g.ht[l] == 0) && t.pages[r].leaf == (g.ht[l] == 0)
    ensures Apart(g.lo[l], g.hi[r])
  {
    assert KidOk(t, g, q, a) && KidOk(t, g, q, a + 1) && UpOk(t, g, l) && UpOk(t, g, r);
    assert SizeOk(t, g, l, x) && SizeOk(t, g, r, x) && NodeOk(t, g, l) && NodeOk(t, g, r);
  }

  /** What the clauses about children need to know about a merge. */
  ghost predicate MergeCore(t: Tree, g: Shape, q: int, a: int, l: int, r: int, t': Tree, g': Shape) {
    && Siblings(t, g, q, a, l, r) && NodesOk(t, g) && KidsOk(t, g) && KeysOk(t, g)
    && |t.pages[l].rids| > 0 && |t.pages[r].rids| > 0 && q != l && q != r
    && t.pages[l].parent == q == t.pages[r].parent
    && t.pages[l].leaf == (g.ht[l] == 0) && t.pages[r].leaf == (g.ht[l] == 0)
    && MergeView(t, t', q, a, l, r)
    && g'.ht == g.ht - {r} && g'.lo == g.lo - {r} && g'.hi == g.hi[l := g.hi[r]] - {r}
  }

  lemma MergeToCore(t: Tree, g: Shape, x: int, q: int, a: int, l: int, r: int, t': Tree, g': Shape)
    requires Merge(t, g, x, q, a, l, r, t', g')
    ensures MergeCore(t, g, q, a, l, r, t', g')
  {
    MergeSizes(t, g, x, q, a, l, r, t', g');
  }

  lemma MergeDom(t: Tree, g: Shape, x: int, q: int, a: int, l: int, r: int, t': Tree, g': Shape)
    requires Merge(t, g, x, q, a, l, r, t', g')
    ensures DomOk(t', g')
  {
    MergeSizes(t, g, x, q, a, l, r, t', g');
  }

  lemma MergeNode(t: Tree, g: Shape, x: int, q: int, a: int, l: int, r: int, t': Tree, g': Shape, u: int)
    requires Merge(t, g, x, q, a, l, r, t', g') && DomOk(t', g') && u in g'.ht
    ensures NodeOk(t', g', u) && SizeOk(t', g', u, q)
  {
    MergeSizes(t, g, x, q, a, l, r, t', g');
    assert NodeOk(t, g, u) && SizeOk(t, g, u, x);
    if u == l {
      assert NodeOk(t, g, r);
      if g.ht[l] == 0 {
        LeafRow(t, g, l, r);
      }
    } else if u != q {
      MergePage(t, t', q, a, l, r, u);
    }
  }

  lemma MergeMoved(t: Tree, g: Shape, q: int, a: int, l: int, r: int, t': Tree, g': Shape, i: int)
    requires MergeCore(t, g, q, a, l, r, t', g') && g.ht[l] > 0
    requires 0 <= i < |Row(t, l, r)|
    ensures |Row(t, l, r)| == |RowKeys(t, l, r)| && RowSlot(t, g, l, r, i)
    ensures ghost var c := Row(t, l, r)[i].page;
      && c in g'.ht && g'.ht[c] == g.ht[c] && c in g'.lo && c in g'.hi
      && g'.lo[c] == g.lo[c] && g'.hi[c] == g.hi[c] && t'.pages[c].parent == l
  {
    RowKid(t, g, q, a, l, r, i);
    var c := Row(t, l, r)[i].page;
    MergePage(t, t', q, a, l, r, c);
    if i < |t.pages[l].rids| {
      assert KidOk(t, g, l, i);
    } else {
      assert Row(t, l, r)[i] == t.pages[r].rids[i - |t.pages[l].rids|];
    }
  }

  lemma MergeKidLeft(t: Tree, g: Shape, q: int, a: int, l: int, r: int, t': Tree, g': Shape, i: int)
    requires MergeCore(t, g, q, a, l, r, t', g') && DomOk(t', g') && g.ht[l] > 0
    requires 0 <= i < |Row(t, l, r)|
    ensures KidOk(t', g', l, i) && KeyOk(t', g', l, i)
  {
    MergeMoved(t, g, q, a, l, r, t', g', i);
    if i + 1 < |Row(t, l, r)| {
      MergeMoved(t, g, q, a, l, r, t', g', i + 1);
    }
    KidFromRow(t, g, l, r, i, t', g', l, i);
  }

  /** Slot `i` of the parent before and after slot `a + 1` has been erased. */
  lemma ErasedSlot(n: Node, a: int, k: int, i: int)
    requires 0 <= a && a + 1 < |n.keys| == |n.rids| && 0 <= i < |n.rids| - 1
    ensures var m := ErasePair(n.(keys := n.keys[a := k]), a + 1);
      && |m.keys| == |m.rids| == |n.rids| - 1
      && m.rids[i] == n.rids[if i <= a then i else i + 1]
      && m.keys[i] == (if i == a then k else n.keys[if i <= a then i else i + 1])
  {
  }

  lemma MergeFirstKey(t: Tree, g: Shape, q: int, a: int, l: int, r: int, t': Tree, g': Shape)
    requires MergeCore(t, g, q, a, l, r, t', g') && g.lo[l].At?
    ensures RowKeys(t, l, r)[0] == g.lo[l].k
  {
    assert NodeOk(t, g, l);
    if g.ht[l] > 0 {
      RowKid(t, g, q, a, l, r, 0);
    }
  }

  /** A sibling of `l` other than `r` keeps its interval and its parent. */
  lemma MergeSibling(t: Tree, g: Shape, q: int, a: int, l: int, r: int, t': Tree, g': Shape, j: int)
    requires MergeCore(t, g, q, a, l, r, t', g') && DomOk(t', g')
    requires 0 <= j < |t.pages[q].rids| && j != a && j != a + 1
    ensures KidOk(t, g, q, j) && KeyOk(t, g, q, j)
    ensures ghost var c := t.pages[q].rids[j].page;
      && c in g'.ht && g'.ht[c] == g.ht[c] && g'.lo[c] == g.lo[c] && g'.hi[c] == g.hi[c] && t'.pages[c].parent == q
  {
    assert KidOk(t, g, q, j) && KeyOk(t, g, q, j);
    KidsDiffer(t, g, q, j, a);
    KidsDiffer(t, g, q, j, a + 1);
    if g.ht[l] > 0 {
      RowOnly(t, g, q, a, l, r, q, j);
    }
    MergePage(t, t', q, a, l, r, t.pages[q].rids[j].page);
  }

  /** Slot `j` of the parent, now slot `i`, with child `c` and everything around it unchanged. */
  lemma ParentSlot(t: Tree, g: Shape, q: int, j: int, t': Tree, g': Shape, i: int)
    requires DomOk(t, g) && DomOk(t', g') && q in g.ht && q in g'.ht && g'.ht[q] == g.ht[q]
    requires g'.lo[q] == g.lo[q] && g'.hi[q] == g.hi[q]
    requires 0 <= j < |t.pages[q].rids| == |t.pages[q].keys| && 0 <= i < |t'.pages[q].rids| == |t'.pages[q].keys|
    requires KidOk(t, g, q, j) && KeyOk(t, g, q, j) && (i == 0 <==> j == 0)
    requires i + 1 < |t'.pages[q].rids| <==> j + 1 < |t.pages[q].rids|
    requires t'.pages[q].rids[i] == t.pages[q].rids[j] && t'.pages[q].keys[i] == t.pages[q].keys[j]
    requires ghost var c := t.pages[q].rids[j].page;
      c in g'.ht && g'.ht[c] == g.ht[c] && g'.lo[c] == g.lo[c] && g'.hi[c] == g.hi[c] && t'.pages[c].parent == q
    requires j + 1 < |t.pages[q].rids| ==> ghost var d := t.pages[q].rids[j + 1].page;
      t'.pages[q].rids[i + 1].page == d && d in g.ht && d in g'.ht && g'.lo[d] == g.lo[d]
    ensures KidOk(t', g', q, i) && KeyOk(t', g', q, i)
  {
  }

  /** The first child of `q` that the merge may have moved keeps its lower bound. */
  lemma MergeNextLo(t: Tree, g: Shape, q: int, a: int, l: int, r: int, t': Tree, g': Shape, j: int)
    requires MergeCore(t, g, q, a, l, r, t', g') && DomOk(t', g')
    requires 0 <= j < |t.pages[q].rids| && j != a + 1
    ensures ghost var d := t.pages[q].rids[j].page; d in g.ht && d in g'.ht && g'.lo[d] == g.lo[d]
  {
    if j != a {
      MergeSibling(t, g, q, a, l, r, t', g', j);
    }
  }

  lemma MergeKidParent(t: Tree, g: Shape, q: int, a: int, l: int, r: int, t': Tree, g': Shape, i: int)
    requires MergeCore(t, g, q, a, l, r, t', g') && DomOk(t', g')
    requires 0 <= i < |t.pages[q].rids| - 1 && i != a
    ensures i < |t'.pages[q].rids| && KidOk(t', g', q, i) && KeyOk(t', g', q, i)
  {
    var n := t.pages[q];
    var j := if i <= a then i else i + 1;
    ErasedSlot(n, a, RowKeys(t, l, r)[0], i);
    MergeSibling(t, g, q, a, l, r, t', g', j);
    if i + 1 < |n.rids| - 1 {
      ErasedSlot(n, a, RowKeys(t, l, r)[0], i + 1);
      MergeNextLo(t, g, q, a, l, r, t', g', j + 1);
    }
    ParentSlot(t, g, q, j, t', g', i);
  }

  lemma MergeKidPair(t: Tree, g: Shape, q: int, a: int, l: int, r: int, t': Tree, g': Shape)
    requires MergeCore(t, g, q, a, l, r, t', g') && DomOk(t', g')
    ensures a < |t'.pages[q].rids| && KidOk(t', g', q, a) && KeyOk(t', g', q, a)
  {
    var n := t.pages[q];
    ErasedSlot(n, a, RowKeys(t, l, r)[0], a);
    assert KidOk(t, g, q, a) && KidOk(t, g, q, a + 1);
    if g.lo[l].At? {
      MergeFirstKey(t, g, q, a, l, r, t', g');
    }
    if a + 1 < |n.rids| - 1 {
      ErasedSlot(n, a, RowKeys(t, l, r)[0], a + 1);
      KidsDiffer(t, g, q, a + 2, a + 1);
    }
  }

  lemma MergeKidOther(t: Tree, g: Shape, q: int, a: int, l: int, r: int, t': Tree, g': Shape, u: int, i: int)
    requires MergeCore(t, g, q, a, l, r, t', g') && DomOk(t', g')
    requires u in g'.ht && u != q && u != l && g.ht[u] > 0 && 0 <= i < |t.pages[u].rids|
    ensures i < |t'.pages[u].rids| && KidOk(t', g', u, i) && KeyOk(t', g', u, i)
  {
    assert KidOk(t, g, u, i) && KeyOk(t, g, u, i) && NodeOk(t, g, u);
    if i + 1 < |t.pages[u].rids| { assert KidOk(t, g, u, i + 1); }
    if g.ht[l] > 0 {
      RowOnly(t, g, q, a, l, r, u, i);
    }
    var c := t.pages[u].rids[i].page;
    MergePage(t, t', q, a, l, r, u);
    if c != q { MergePage(t, t', q, a, l, r, c); }
  }

  lemma MergeKids(t: Tree, g: Shape, q: int, a: int, l: int, r: int, t': Tree, g': Shape)
    requires MergeCore(t, g, q, a, l, r, t', g') && DomOk(t', g')
    ensures KidsOk(t', g') && KeysOk(t', g')
  {
    forall u, i | u in g'.ht && g'.ht[u] > 0 && 0 <= i < |t'.pages[u].rids|
      ensures KidOk(t', g', u, i) && KeyOk(t', g', u, i)
    {
      if u == l {
        MergeKidLeft(t, g, q, a, l, r, t', g', i);
      } else if u == q {
        if i == a {
          MergeKidPair(t, g, q, a, l, r, t', g');
        } else {
          MergeKidParent(t, g, q, a, l, r, t', g', i);
        }
      } else {
        MergePage(t, t', q, a, l, r, u);
        MergeKidOther(t, g, q, a, l, r, t', g', u, i);
      }
    }
  }

  lemma MergeUp(t: Tree, g: Shape, x: int, q: int, a: int, l: int, r: int, t': Tree, g': Shape, u: int)
    requires Merge(t, g, x, q, a, l, r, t', g') && DomOk(t', g') && u in g'.ht
    ensures UpOk(t', g', u)
  {
    MergeSizes(t, g, x, q, a, l, r, t', g');
    assert UpOk(t, g, u) && UpOk(t, g, l);
    var w := t.pages[u].parent;
    if g.ht[l] > 0 && Rid(u, -1) in t.pages[r].rids {
      var j :| 0 <= j < |t.pages[r].rids| && t.pages[r].rids[j] == Rid(u, -1);
      assert KidOk(t, g, r, j);
      MergePage(t, t', q, a, l, r, u);
      assert Row(t, l, r)[|t.pages[l].rids| + j] == Rid(u, -1);
    } else {
      if u != q && u != l { MergePage(t, t', q, a, l, r, u); }
      if w == q {
        MergeUpParent(t, g, x, q, a, l, r, t', g', u);
      } else if u != t.root && w != l {
        MergePage(t, t', q, a, l, r, w);
      }
    }
  }

  lemma MergeUpParent(t: Tree, g: Shape, x: int, q: int, a: int, l: int, r: int, t': Tree, g': Shape, u: int)
    requires Merge(t, g, x, q, a, l, r, t', g') && u in g.ht && u != r
    requires Rid(u, -1) in t.pages[q].rids
    ensures Rid(u, -1) in t'.pages[q].rids
  {
    var n := t.pages[q];
    var i :| 0 <= i < |n.rids| && n.rids[i] == Rid(u, -1);
    ErasedSlot(n, a, RowKeys(t, l, r)[0], if i <= a then i else i - 1);
    assert t'.pages[q].rids[if i <= a then i else i - 1] == Rid(u, -1);
  }

  // ---------------------------------------------------------------- leaf list and ring

  lemma MergeLeafIndex(t: Tree, g: Shape, l: int, r: int)
    requires DomOk(t, g) && NodesOk(t, g) && LeavesOk(t, g)
    requires l in g.ht && r in g.ht && g.ht[l] == 0 == g.ht[r] && g.hi[l] == g.lo[r] && g.lo[r].At?
    ensures LeafIndex(t, g, r) == LeafIndex(t, g, l) + 1
  {
    var i, j := LeafIndex(t, g, l), LeafIndex(t, g, r);
    assert LeafAt(g, i) && LeafAt(g, j);
    NextIs(t, g, i, j);
  }

  lemma RemoveAtIs(ls: seq<int>, j: int, i: int)
    requires 0 <= j < |ls| && 0 <= i < |ls| - 1
    ensures RemoveAt(ls, j)[i] == ls[if i < j then i else i + 1]
  {
  }

  lemma MergeLeafAt(t: Tree, g: Shape, l: int, r: int, g': Shape, i: int)
    requires DomOk(t, g) && NodesOk(t, g) && LeavesOk(t, g) && l != r
    requires l in g.ht && r in g.ht && g.ht[l] == 0 == g.ht[r] && g.hi[l] == g.lo[r] && g.lo[r].At?
    requires g' == MergeShape(t, g, l, r) && 0 <= i < |g'.leaves|
    ensures LeafAt(g', i)
  {
    MergeLeafIndex(t, g, l, r);
    var jl, jr := LeafIndex(t, g, l), LeafIndex(t, g, r);
    var i1 := if i < jr then i else i + 1;
    RemoveAtIs(g.leaves, jr, i);
    assert LeafAt(g, i1) && LeafAt(g, jr);
    LeafElse(t, g, jr, i1);
    if i1 != jl { LeafElse(t, g, jl, i1); }
    if i > 0 {
      RemoveAtIs(g.leaves, jr, i - 1);
      var i0 := if i - 1 < jr then i - 1 else i;
      assert LeafAt(g, i0);
      LeafElse(t, g, jr, i0);
      if i0 != jl { LeafElse(t, g, jl, i0); }
    }
  }

  lemma LeafElse(t: Tree, g: Shape, i: int, j: int)
    requires DomOk(t, g) && NodesOk(t, g) && LeavesOk(t, g)
    requires 0 <= i < |g.leaves| && 0 <= j < |g.leaves| && i != j
    ensures g.leaves[i] != g.leaves[j]
  {
    if i < j { LeafOrder(t, g, i, j); } else { LeafOrder(t, g, j, i); }
  }

  lemma MergeLeafIn(t: Tree, g: Shape, l: int, r: int, g': Shape, p: int)
    requires DomOk(t, g) && LeavesOk(t, g) && l in g.ht && r in g.ht && g.ht[r] == 0
    requires g' == MergeShape(t, g, l, r) && p in g.ht && g.ht[p] == 0 && p != r
    ensures p in g'.leaves
  {
    var i, jr := LeafIndex(t, g, p), LeafIndex(t, g, r);
    RemoveAtIs(g.leaves, jr, if i < jr then i else i - 1);
    assert g'.leaves[if i < jr then i else i - 1] == p;
  }

  lemma MergeLeaves(t: Tree, g: Shape, x: int, q: int, a: int, l: int, r: int, t': Tree, g': Shape)
    requires Merge(t, g, x, q, a, l, r, t', g') && DomOk(t', g') && g.ht[l] == 0
    ensures LeavesOk(t', g')
  {
    MergeLeafIndex(t, g, l, r);
    forall i | 0 <= i < |g'.leaves| ensures LeafAt(g', i) {
      MergeLeafAt(t, g, l, r, g', i);
    }
    forall p | p in g'.ht && g'.ht[p] == 0 ensures p in g'.leaves {
      MergeLeafIn(t, g, l, r, g', p);
    }
  }

  lemma MergeLeavesInner(t: Tree, g: Shape, x: int, q: int, a: int, l: int, r: int, t': Tree, g': Shape)
    requires Merge(t, g, x, q, a, l, r, t', g') && DomOk(t', g') && g.ht[l] > 0
    ensures LeavesOk(t', g')
  {
    forall i | 0 <= i < |g'.leaves| ensures LeafAt(g', i) {
      assert LeafAt(g, i);
      if i > 0 { assert LeafAt(g, i - 1); }
    }
  }

  lemma MergeRingSlot(t: Tree, g: Shape, q: int, a: int, l: int, r: int, t': Tree, g': Shape, i: int)
    requires DomOk(t, g) && NodesOk(t, g) && LeavesOk(t, g) && RingOk(t, g)
    requires Siblings(t, g, q, a, l, r) && g.ht[l] == 0 && t.pages[l].leaf
    requires MergeView(t, t', q, a, l, r) && g' == MergeShape(t, g, l, r) && 0 <= i < |g'.leaves|
    ensures RingSlot(t', g', i)
  {
    MergeLeafIndex(t, g, l, r);
    var jl, jr := LeafIndex(t, g, l), LeafIndex(t, g, r);
    var i1 := if i < jr then i else i + 1;
    assert RingSlot(t, g, i1) && RingSlot(t, g, jr) && LeafAt(g, i1);
    RemoveAtIs(g.leaves, jr, i);
    if i > 0 { RemoveAtIs(g.leaves, jr, i - 1); }
    if i + 1 < |g'.leaves| { RemoveAtIs(g.leaves, jr, i + 1); }
    LeafElse(t, g, jr, i1);
    if i1 != jl {
      LeafElse(t, g, jl, i1);
      MergePage(t, t', q, a, l, r, g.leaves[i1]);
    } else {
      if jr + 1 < |g.leaves| { LeafElse(t, g, jl, jr + 1); }
    }
    if jr + 1 < |g.leaves| && i1 != jr + 1 { LeafElse(t, g, i1, jr + 1); }
  }

  lemma MergeRing(t: Tree, g: Shape, x: int, q: int, a: int, l: int, r: int, t': Tree, g': Shape)
    requires Merge(t, g, x, q, a, l, r, t', g') && DomOk(t', g') && g.ht[l] == 0
    ensures RingOk(t', g')
  {
    MergeSizes(t, g, x, q, a, l, r, t', g');
    MergeLeafIndex(t, g, l, r);
    var jl, jr := LeafIndex(t, g, l), LeafIndex(t, g, r);
    forall i | 0 <= i < |g'.leaves| ensures RingSlot(t', g', i) {
      MergeRingSlot(t, g, q, a, l, r, t', g', i);
    }
    RemoveAtIs(g.leaves, jr, 0);
    RemoveAtIs(g.leaves, jr, |g'.leaves| - 1);
    assert RingSlot(t, g, jr);
    if jr != |g.leaves| - 1 {
      LeafElse(t, g, jr, |g.leaves| - 1);
      assert LeafAt(g, jr + 1);
    }
    MergePage(t, t', q, a, l, r, LEAF_HEADER);
  }

  lemma MergeRingInner(t: Tree, g: Shape, x: int, q: int, a: int, l: int, r: int, t': Tree, g': Shape)
    requires Merge(t, g, x, q, a, l, r, t', g') && DomOk(t', g') && g.ht[l] > 0
    ensures RingOk(t', g')
  {
    MergeSizes(t, g, x, q, a, l, r, t', g');
    forall i | 0 <= i < |g'.leaves| ensures RingSlot(t', g', i) {
      assert RingSlot(t, g, i) && LeafAt(g, i);
      MergePage(t, t', q, a, l, r, g.leaves[i]);
    }
    MergePage(t, t', q, a, l, r, LEAF_HEADER);
  }

  /** Merging keeps the invariant; only the parent may now hold one entry too few. */
  lemma MergeInv(t: Tree, g: Shape, x: int, q: int, a: int, l: int, r: int, t': Tree, g': Shape)
    requires Merge(t, g, x, q, a, l, r, t', g')
    ensures Inv(t', g', q)
  {
    MergeDom(t, g, x, q, a, l, r, t', g');
    forall u | u in g'.ht ensures NodeOk(t', g', u) && SizeOk(t', g', u, q) && UpOk(t', g', u) {
      MergeNode(t, g, x, q, a, l, r, t', g', u);
      MergeUp(t, g, x, q, a, l, r, t', g', u);
    }
    MergeToCore(t, g, x, q, a, l, r, t', g');
    MergeKids(t, g, q, a, l, r, t', g');
    if g.ht[l] == 0 {
      MergeLeaves(t, g, x, q, a, l, r, t', g');
      MergeRing(t, g, x, q, a, l, r, t', g');
    } else {
      MergeLeavesInner(t, g, x, q, a, l, r, t', g');
      MergeRingInner(t, g, x, q, a, l, r, t', g');
    }
  }

  // ---------------------------------------------------------------- root collapse

  function Collapse(t: Tree): (t': Tree)
    requires t.root in t.pages && |t.pages[t.root].rids| > 0 && t.pages[t.root].rids[0].page in t.pages
  {
    var c := t.pages[t.root].rids[0].page;
    t.(pages := t.pages[c := t.pages[c].(parent := NO_PAGE)], root := c)
  }

  ghost function CollapseShape(t: Tree, g: Shape): (g': Shape) {
    g.(ht := g.ht - {t.root}, lo := g.lo - {t.root}, hi := g.hi - {t.root})
  }

  lemma CollapseInv(t: Tree, g: Shape)
    requires Inv(t, g, t.root) && g.ht[t.root] > 0 && |t.pages[t.root].rids| == 1
    ensures t.pages[t.root].rids[0].page in t.pages
    ensures Inv(Collapse(t), CollapseShape(t, g), NO_PAGE)
  {
    assert KidOk(t, g, t.root, 0) && UpOk(t, g, t.root);
    var c := t.pages[t.root].rids[0].page;
    var t', g' := Collapse(t), CollapseShape(t, g);
    CollapseNodes(t, g, c, t', g');
    CollapseUps(t, g, c, t', g');
    CollapseKids(t, g, c, t', g');
    CollapseRing(t, g, c, t', g');
  }

  ghost predicate Collapsing(t: Tree, g: Shape, c: int, t': Tree, g': Shape) {
    && Inv(t, g, t.root) && g.ht[t.root] > 0 && |t.pages[t.root].rids| == 1
    && t.pages[t.root].rids[0] == Rid(c, -1) && c in g.ht && g.ht[c] + 1 == g.ht[t.root]
    && g.lo[c] == Inf && g.hi[c] == Inf
    && t' == Collapse(t) && g' == CollapseShape(t, g)
  }

  lemma CollapseNodes(t: Tree, g: Shape, c: int, t': Tree, g': Shape)
    requires Collapsing(t, g, c, t', g')
    ensures DomOk(t', g') && NodesOk(t', g') && SizesOk(t', g', NO_PAGE)
  {
    forall u | u in g'.ht ensures NodeOk(t', g', u) && SizeOk(t', g', u, NO_PAGE) {
      assert NodeOk(t, g, u) && SizeOk(t, g, u, t.root);
    }
  }

  lemma CollapseUps(t: Tree, g: Shape, c: int, t': Tree, g': Shape)
    requires Collapsing(t, g, c, t', g') && DomOk(t', g')
    ensures UpsOk(t', g')
  {
    forall u | u in g'.ht ensures UpOk(t', g', u) {
      assert UpOk(t, g, u);
    }
  }

  lemma CollapseKids(t: Tree, g: Shape, c: int, t': Tree, g': Shape)
    requires Collapsing(t, g, c, t', g') && DomOk(t', g')
    ensures KidsOk(t', g') && KeysOk(t', g')
  {
    assert UpOk(t, g, t.root) && KidOk(t, g, t.root, 0);
    forall u, i | u in g'.ht && g'.ht[u] > 0 && 0 <= i < |t'.pages[u].rids|
      ensures KidOk(t', g', u, i) && KeyOk(t', g', u, i)
    {
      assert KidOk(t, g, u, i) && KeyOk(t, g, u, i);
      if i + 1 < |t.pages[u].rids| { assert KidOk(t, g, u, i + 1); }
    }
  }

  lemma CollapseRing(t: Tree, g: Shape, c: int, t': Tree, g': Shape)
    requires Collapsing(t, g, c, t', g') && DomOk(t', g')
    ensures LeavesOk(t', g') && RingOk(t', g')
  {
    forall i | 0 <= i < |g'.leaves| ensures LeafAt(g', i) && RingSlot(t', g', i) {
      assert LeafAt(g, i) && RingSlot(t, g, i);
      if i > 0 { assert LeafAt(g, i - 1); }
    }
  }

  /** A root that is a leaf is the only leaf. */
  lemma OnlyLeaf(t: Tree, g: Shape, x: int)
    requires Inv(t, g, x) && g.ht[t.root] == 0
    ensures g.leaves == [t.root] && t.first == t.root == t.last
  {
    var i := LeafIndex(t, g, t.root);
    assert UpOk(t, g, t.root) && LeafAt(g, i);
    assert i + 1 < |g.leaves| ==> LeafAt(g, i + 1);
  }
}
