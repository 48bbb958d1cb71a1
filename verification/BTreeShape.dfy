/** What the invariant says about a whole tree: which pages form the leftmost spine, and that
    every other separator is the least key of its subtree. */
module BTreeShape {
  import opened Rids
  import opened BTreeState
  import opened BTreeOrder
  import opened BTreeMaintain
  import opened BTreeIndex

  /** The root, and the first child of every page of the spine. */
  ghost predicate OnSpine(t: Tree, g: Shape, p: int)
    requires Inv(t, g, NO_PAGE) && p in g.ht
    decreases Higher(g, p)
  {
    if p == t.root then true
    else
      assert UpOk(t, g, p);
      var q := t.pages[p].parent;
      HigherShrinks(g, p, q);
      assert SizeOk(t, g, q, NO_PAGE);
      t.pages[q].rids[0] == Rid(p, -1) && OnSpine(t, g, q)
  }

  /** The pages without a lower bound are exactly those of the leftmost spine. */
  lemma {:induction false} SpineIsUnbounded(t: Tree, g: Shape, p: int)
    requires Inv(t, g, NO_PAGE) && p in g.ht
    ensures g.lo[p] == Inf <==> OnSpine(t, g, p)
    decreases Higher(g, p)
  {
    assert UpOk(t, g, p);
    if p != t.root {
      var q := t.pages[p].parent;
      HigherShrinks(g, p, q);
      SpineIsUnbounded(t, g, q);
      FirstKid(t, g, NO_PAGE, q);
      var i := SlotOf(t, g, p);
      assert KidOk(t, g, q, i);
      if i > 0 {
        KidsDistinct(t, g, q, 0, i);
      }
    }
  }

  /** The keys stored in the leaves below a page. */
  ghost function SubKeys(t: Tree, g: Shape, p: int): (s: set<int>)
    requires DomOk(t, g) && KidsOk(t, g) && p in g.ht
    decreases g.ht[p]
  {
    if g.ht[p] == 0 then set k | k in t.pages[p].keys
    else
      assert forall i | 0 <= i < |t.pages[p].rids| :: KidOk(t, g, p, i);
      set i, k | 0 <= i < |t.pages[p].rids| && k in KidKeys(t, g, p, i) :: k
  }

  ghost function KidKeys(t: Tree, g: Shape, p: int, i: int): (s: set<int>)
    requires DomOk(t, g) && KidsOk(t, g) && p in g.ht && g.ht[p] > 0 && 0 <= i < |t.pages[p].rids|
    decreases g.ht[p], 0
  {
    assert KidOk(t, g, p, i);
    SubKeys(t, g, t.pages[p].rids[i].page)
  }

  lemma {:induction false} SubKeysInside(t: Tree, g: Shape, x: int, p: int, k: int)
    requires Inv(t, g, x) && p in g.ht && k in SubKeys(t, g, p)
    ensures Below(g.lo[p], k) && Above(k, g.hi[p])
    decreases g.ht[p]
  {
    assert NodeOk(t, g, p);
    if g.ht[p] > 0 {
      var i :| 0 <= i < |t.pages[p].rids| && k in KidKeys(t, g, p, i);
      assert KidOk(t, g, p, i);
      SubKeysInside(t, g, x, t.pages[p].rids[i].page, k);
      KidInside(t, g, p, i);
    }
  }

  /** The interval of a child lies inside that of its parent. */
  lemma KidInside(t: Tree, g: Shape, p: int, i: int)
    requires DomOk(t, g) && NodesOk(t, g) && KidsOk(t, g) && p in g.ht && g.ht[p] > 0 && 0 <= i < |t.pages[p].rids|
    ensures t.pages[p].rids[i].page in g.ht
    ensures g.lo[p].At? ==> g.lo[t.pages[p].rids[i].page].At? && g.lo[p].k <= g.lo[t.pages[p].rids[i].page].k
    ensures g.hi[p].At? ==> g.hi[t.pages[p].rids[i].page].At? && g.hi[t.pages[p].rids[i].page].k <= g.hi[p].k
  {
    var n := |t.pages[p].rids|;
    assert KidOk(t, g, p, i) && KidOk(t, g, p, 0) && KidOk(t, g, p, n - 1);
    assert NodeOk(t, g, t.pages[p].rids[0].page) && NodeOk(t, g, t.pages[p].rids[n - 1].page);
    if i > 0 { KidsApart(t, g, p, 0, i); }
    if i < n - 1 { KidsApart(t, g, p, i, n - 1); }
  }

  lemma {:induction false} LowerBoundStored(t: Tree, g: Shape, x: int, p: int)
    requires Inv(t, g, x) && p in g.ht && g.lo[p].At?
    ensures g.lo[p].k in SubKeys(t, g, p)
    decreases g.ht[p]
  {
    assert NodeOk(t, g, p);
    if g.ht[p] > 0 {
      FirstKid(t, g, x, p);
      LowerBoundStored(t, g, x, t.pages[p].rids[0].page);
      assert g.lo[p].k in KidKeys(t, g, p, 0);
    }
  }

  /** Every separator is the least key stored below it, except slot 0 on the leftmost spine. */
  lemma SeparatorIsMinimum(t: Tree, g: Shape, p: int, i: int)
    requires Inv(t, g, NO_PAGE) && p in g.ht && g.ht[p] > 0 && 0 <= i < |t.pages[p].rids|
    requires i > 0 || !OnSpine(t, g, p)
    ensures |t.pages[p].keys| == |t.pages[p].rids|
    ensures t.pages[p].keys[i] in KidKeys(t, g, p, i)
    ensures forall k | k in KidKeys(t, g, p, i) :: t.pages[p].keys[i] <= k
  {
    SpineIsUnbounded(t, g, p);
    assert NodeOk(t, g, p) && KidOk(t, g, p, i) && KeyOk(t, g, p, i);
    var c := t.pages[p].rids[i].page;
    LowerBoundStored(t, g, NO_PAGE, c);
    forall k | k in KidKeys(t, g, p, i) ensures t.pages[p].keys[i] <= k {
      SubKeysInside(t, g, NO_PAGE, c, k);
    }
  }

  // ---------------------------------------------------------------- the shape of every reachable tree

  /** Steps along parent pointers from a page to the root. */
  ghost function Depth(t: Tree, g: Shape, p: int): (d: nat)
    requires Inv(t, g, NO_PAGE) && p in g.ht
    decreases Higher(g, p)
  {
    if p == t.root then 0
    else
      assert UpOk(t, g, p);
      HigherShrinks(g, p, t.pages[p].parent);
      1 + Depth(t, g, t.pages[p].parent)
  }

  lemma {:induction false} DepthIsHeight(t: Tree, g: Shape, p: int)
    requires Inv(t, g, NO_PAGE) && p in g.ht
    ensures Depth(t, g, p) + g.ht[p] == g.ht[t.root]
    decreases Higher(g, p)
  {
    if p != t.root {
      assert UpOk(t, g, p);
      HigherShrinks(g, p, t.pages[p].parent);
      DepthIsHeight(t, g, t.pages[p].parent);
    }
  }

  /** All leaves are equally far from the root. */
  lemma UniformLeafDepth(t: Tree, g: Shape, p: int, q: int)
    requires Inv(t, g, NO_PAGE) && p in g.ht && q in g.ht && t.pages[p].leaf && t.pages[q].leaf
    ensures Depth(t, g, p) == Depth(t, g, q)
  {
    assert NodeOk(t, g, p) && NodeOk(t, g, q);
    DepthIsHeight(t, g, p);
    DepthIsHeight(t, g, q);
  }

  /** Off the root a page holds at least half of its capacity and less than all of it; an inner root has two
      children or more. */
  lemma SizesInBounds(t: Tree, g: Shape, p: int)
    requires Inv(t, g, NO_PAGE) && p in g.ht
    ensures |t.pages[p].keys| == |t.pages[p].rids| < t.max
    ensures p != t.root ==> t.max / 2 <= |t.pages[p].keys|
    ensures p == t.root && !t.pages[p].leaf ==> 2 <= |t.pages[p].keys|
  {
    assert NodeOk(t, g, p) && SizeOk(t, g, p, NO_PAGE);
  }

  /** A page is the child of exactly one slot, of the page its parent pointer names. */
  lemma ParentPointers(t: Tree, g: Shape, p: int, q: int, i: int)
    requires Inv(t, g, NO_PAGE) && p in g.ht && q in g.ht && g.ht[q] > 0 && 0 <= i < |t.pages[q].rids|
    ensures t.pages[q].rids[i].page == p ==> t.pages[p].parent == q && p != t.root
    ensures forall j | 0 <= j < |t.pages[q].rids| && j != i :: t.pages[q].rids[j].page != t.pages[q].rids[i].page
  {
    assert KidOk(t, g, q, i);
    forall j | 0 <= j < |t.pages[q].rids| && j != i ensures t.pages[q].rids[j].page != t.pages[q].rids[i].page {
      KidsDistinct(t, g, q, if i < j then i else j, if i < j then j else i);
    }
    assert UpOk(t, g, p);
  }

  /** The leaves form one ring through the header page, which starts at the page the tree was created with. */
  lemma LeafRing(t: Tree, g: Shape, i: int)
    requires Inv(t, g, NO_PAGE) && 0 <= i < |g.leaves|
    ensures t.first == INIT_ROOT == g.leaves[0] && t.last == g.leaves[|g.leaves| - 1]
    ensures g.leaves[i] in g.ht && g.leaves[i] in t.pages && t.pages[g.leaves[i]].leaf
    ensures t.pages[g.leaves[i]].next == if i + 1 < |g.leaves| then g.leaves[i + 1] else LEAF_HEADER
    ensures t.pages[g.leaves[i]].prev == if i > 0 then g.leaves[i - 1] else LEAF_HEADER
    ensures t.pages[LEAF_HEADER].next == t.first && t.pages[LEAF_HEADER].prev == t.last
  {
    assert LeafAt(g, i) && RingSlot(t, g, i) && NodeOk(t, g, g.leaves[i]);
  }
}
