/** Consequences of the invariant: the order of leaves, of separators, and where a key lives. */
module BTreeOrder {
  import opened Rids
  import opened BTreeState

  /** Leaf intervals follow one another without overlap. */
  lemma {:induction false} LeafOrder(t: Tree, g: Shape, i: int, j: int)
    requires DomOk(t, g) && NodesOk(t, g) && LeavesOk(t, g)
    requires 0 <= i < j < |g.leaves|
    ensures g.leaves[i] in g.ht && g.leaves[j] in g.ht
    ensures g.hi[g.leaves[i]].At? && g.lo[g.leaves[j]].At?
    ensures g.hi[g.leaves[i]].k <= g.lo[g.leaves[j]].k
    ensures g.leaves[i] != g.leaves[j]
    decreases j - i
  {
    assert LeafAt(g, i) && LeafAt(g, i + 1) && LeafAt(g, j);
    if i + 1 < j {
      LeafOrder(t, g, i + 1, j);
      assert NodeOk(t, g, g.leaves[i + 1]);
    }
    assert NodeOk(t, g, g.leaves[i]);
    assert NodeOk(t, g, g.leaves[j]);
  }

  lemma LeafUnique(t: Tree, g: Shape, i: int, j: int, k: int)
    requires DomOk(t, g) && NodesOk(t, g) && LeavesOk(t, g)
    requires 0 <= i < |g.leaves| && 0 <= j < |g.leaves|
    requires LeafAt(g, i) && LeafAt(g, j)
    requires Below(g.lo[g.leaves[i]], k) && Above(k, g.hi[g.leaves[i]])
    requires Below(g.lo[g.leaves[j]], k) && Above(k, g.hi[g.leaves[j]])
    ensures i == j
  {
    if i < j {
      LeafOrder(t, g, i, j);
    } else if j < i {
      LeafOrder(t, g, j, i);
    }
  }

  /** The separators of an internal page increase from slot 1 on. */
  lemma {:induction false} InnerSorted(t: Tree, g: Shape, p: int, i: int, j: int)
    requires DomOk(t, g) && NodesOk(t, g) && KidsOk(t, g) && KeysOk(t, g)
    requires p in g.ht && g.ht[p] > 0
    requires 0 < i < j < |t.pages[p].rids|
    ensures |t.pages[p].keys| == |t.pages[p].rids|
    ensures t.pages[p].keys[i] < t.pages[p].keys[j]
    decreases j - i
  {
    assert NodeOk(t, g, p);
    assert KidOk(t, g, p, i) && KeyOk(t, g, p, i);
    assert KidOk(t, g, p, i + 1) && KeyOk(t, g, p, i + 1);
    assert NodeOk(t, g, t.pages[p].rids[i].page);
    if i + 1 < j {
      InnerSorted(t, g, p, i + 1, j);
    }
  }

  /** Children of one page are pairwise different. */
  lemma KidsDistinct(t: Tree, g: Shape, p: int, i: int, j: int)
    requires DomOk(t, g) && NodesOk(t, g) && KidsOk(t, g)
    requires p in g.ht && g.ht[p] > 0
    requires 0 <= i < j < |t.pages[p].rids|
    ensures t.pages[p].rids[i].page != t.pages[p].rids[j].page
  {
    KidsApart(t, g, p, i, j);
    assert KidOk(t, g, p, i) && KidOk(t, g, p, j);
    assert NodeOk(t, g, t.pages[p].rids[i].page);
  }

  lemma {:induction false} KidsApart(t: Tree, g: Shape, p: int, i: int, j: int)
    requires DomOk(t, g) && NodesOk(t, g) && KidsOk(t, g)
    requires p in g.ht && g.ht[p] > 0
    requires 0 <= i < j < |t.pages[p].rids|
    ensures t.pages[p].rids[i].page in g.ht && t.pages[p].rids[j].page in g.ht
    ensures g.hi[t.pages[p].rids[i].page].At? && g.lo[t.pages[p].rids[j].page].At?
    ensures g.hi[t.pages[p].rids[i].page].k <= g.lo[t.pages[p].rids[j].page].k
    decreases j - i
  {
    assert KidOk(t, g, p, i) && KidOk(t, g, p, i + 1);
    if i + 1 < j {
      KidsApart(t, g, p, i + 1, j);
      assert NodeOk(t, g, t.pages[p].rids[i + 1].page);
    }
  }

  /** The position of a page among the children of its parent. */
  ghost function SlotOf(t: Tree, g: Shape, p: int): (i: int)
    requires DomOk(t, g) && UpsOk(t, g) && p in g.ht && p != t.root
    ensures t.pages[p].parent in g.ht
    ensures 0 <= i < |t.pages[t.pages[p].parent].rids|
    ensures t.pages[t.pages[p].parent].rids[i] == Rid(p, -1)
  {
    assert UpOk(t, g, p);
    var q := t.pages[p].parent;
    var i :| 0 <= i < |t.pages[q].rids| && t.pages[q].rids[i] == Rid(p, -1);
    i
  }

  /** The position of a leaf in the leaf order. */
  ghost function LeafIndex(t: Tree, g: Shape, p: int): (i: int)
    requires DomOk(t, g) && LeavesOk(t, g) && p in g.ht && g.ht[p] == 0
    ensures 0 <= i < |g.leaves| && g.leaves[i] == p
  {
    var i :| 0 <= i < |g.leaves| && g.leaves[i] == p;
    i
  }

}
