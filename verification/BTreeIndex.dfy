/** The index handle: the operations of the B+ tree as they run on the page map. */
module BTreeIndex {
  import opened Rids
  import opened BTreeState
  import opened BTreeOrder
  import opened BTreeInsert
  import opened BTreeSplit
  import opened BTreeLink
  import opened BTreeMaintain
  import opened BTreeErase
  import opened BTreeRebalance
  import opened BTreeMerge
  import opened BTreeContents
  import opened BTreeKeep
  import opened BTreeSearch
  import opened BTreeShrink
  import opened BTreeCursor

  /** The child slot an internal page picks for a key holds that key's interval. */
  lemma ChildHolds(t: Tree, g: Shape, x: int, p: int, k: int, up: int)
    requires Inv(t, g, x) && p in g.ht && g.ht[p] > 0 && Below(g.lo[p], k) && Above(k, g.hi[p])
    requires 1 <= up <= |t.pages[p].rids| == |t.pages[p].keys|
    requires forall i | 1 <= i < up :: t.pages[p].keys[i] <= k
    requires forall i | up <= i < |t.pages[p].keys| :: k < t.pages[p].keys[i]
    ensures t.pages[p].rids[up - 1].page in g.ht
    ensures g.ht[t.pages[p].rids[up - 1].page] < g.ht[p]
    ensures Below(g.lo[t.pages[p].rids[up - 1].page], k) && Above(k, g.hi[t.pages[p].rids[up - 1].page])
  {
    assert KidOk(t, g, p, up - 1) && KeyOk(t, g, p, up - 1);
    if up < |t.pages[p].rids| {
      assert KidOk(t, g, p, up) && KeyOk(t, g, p, up);
    }
  }

  lemma InnerShape(t: Tree, g: Shape, x: int, p: int)
    requires Inv(t, g, x) && p in g.ht && g.ht[p] > 0
    ensures 1 <= |t.pages[p].keys| == |t.pages[p].rids|
    ensures forall i, j | 1 <= i < j < |t.pages[p].keys| :: t.pages[p].keys[i] < t.pages[p].keys[j]
    ensures forall i | 0 <= i < |t.pages[p].rids| :: t.pages[p].rids[i].slot == -1
  {
    FirstKid(t, g, x, p);
    assert NodeOk(t, g, p);
    forall i, j | 1 <= i < j < |t.pages[p].keys| ensures t.pages[p].keys[i] < t.pages[p].keys[j] {
      InnerSorted(t, g, p, i, j);
    }
    forall i | 0 <= i < |t.pages[p].rids| ensures t.pages[p].rids[i].slot == -1 {
      assert KidOk(t, g, p, i);
    }
  }

  lemma ReparentStep(pages: map<int, Node>, rids: seq<Rid>, i: int, q: int)
    requires 0 <= i < |rids| && rids[i].slot == -1 && rids[i].page in pages
    ensures ghost var m := Reparent(pages, rids[..i], q);
            Reparent(pages, rids[..i + 1], q) == m[rids[i].page := m[rids[i].page].(parent := q)]
  {
    assert rids[..i + 1] == rids[..i] + [rids[i]];
  }

  /** The pages above a page: each step upwards makes this set smaller. */
  ghost function Higher(g: Shape, p: int): (s: set<int>)
    requires p in g.ht
  {
    set q | q in g.ht && g.ht[q] > g.ht[p]
  }

  lemma HigherShrinks(g: Shape, p: int, q: int)
    requires p in g.ht && q in g.ht && g.ht[q] > g.ht[p]
    ensures Higher(g, q) < Higher(g, p)
  {
    assert q in Higher(g, p) && q !in Higher(g, q);
  }

  /** All that a split guarantees. */
  lemma SplitFacts(t: Tree, g: Shape, p: int)
    requires CanSplit(t, g, p)
    ensures t.pages[p].leaf ==> t.pages[p].next in t.pages && t.pages[p].next != p
    ensures !t.pages[p].leaf ==> Adoptable(t.pages, RightHalf(t, p).rids)
    ensures t.nextPage !in t.pages
    ensures Pending(SplitTree(t, p), SplitShape(t, g, p), p, t.nextPage)
    ensures Flat(SplitTree(t, p).pages, SplitShape(t, g, p).leaves) == Flat(t.pages, g.leaves)
    ensures forall u | u in g.ht && u != p :: SameEntries(t, SplitTree(t, p), u)
    ensures SplitTree(t, p).pages[p] == LeftHalf(t, p) && SplitTree(t, p).pages[t.nextPage] == RightHalf(t, p)
  {
    assert NodeOk(t, g, p);
    if g.ht[p] == 0 {
      LeafSplit(t, g, p);
      NextLeaf(t, g, p);
      LeafSplitPages(t, p);
      KeepLeafSplit(t, g, p);
    } else {
      InnerSplit(t, g, p);
      InnerSplitPages(t, g, p);
      KeepInnerSplit(t, g, p);
      var n := t.pages[p];
      var s := SplitPos(n);
      forall i | 0 <= i < |n.rids[s..]| ensures n.rids[s..][i].slot == -1 && n.rids[s..][i].page in t.pages {
        assert KidOk(t, g, p, s + i);
      }
    }
  }

  ghost predicate Adoptable(pages: map<int, Node>, rids: seq<Rid>) {
    forall i | 0 <= i < |rids| :: rids[i].slot == -1 && rids[i].page in pages
  }

  /** A structural step: the list of entries stays, and so does what each leaf holds. */
  ghost predicate Kept(t: Tree, g: Shape, t': Tree, g': Shape) {
    && Flat(t'.pages, g'.leaves) == Flat(t.pages, g.leaves)
    && (forall p | p in g.ht && g.ht[p] == 0 :: p in g'.ht && g'.ht[p] == 0 && SameEntries(t, t', p))
  }

  lemma LinkRootFacts(t: Tree, g: Shape, p: int, n: int)
    requires Pending(t, g, p, n) && t.pages[p].parent == NO_PAGE
    ensures Inv(LinkRoot(t, p, n), RootShape(t, g, p), NO_PAGE)
    ensures Kept(t, g, LinkRoot(t, p, n), RootShape(t, g, p))
  {
    PendRoot(t, g, p, n);
    var t', g' := LinkRoot(t, p, n), RootShape(t, g, p);
    LinkRootInv(t, g, p, n, t', g');
    KeepLinkRoot(t, g, p, n, t', g');
  }

  lemma LinkBelowFacts(t: Tree, g: Shape, p: int, n: int, i: int, q: int, t': Tree)
    requires Pending(t, g, p, n) && q == t.pages[p].parent && q != NO_PAGE && q in t.pages && q != n
    requires 0 <= i < |t.pages[q].rids| == |t.pages[q].keys| && t.pages[q].rids[i] == Rid(p, -1)
    requires t' == LinkBelow(t, p, n, i)
    ensures Inv(t', g, q) && Kept(t, g, t', g)
  {
    PendParent(t, g, p, n);
    LinkBelowInv(t, g, p, n, i, t');
    KeepLinkBelow(t, g, p, n, i, t');
  }

  /** The parent has one slot more, and is settled unless that fills it. */
  lemma LinkBelowSize(t: Tree, g: Shape, p: int, n: int, i: int, q: int, t': Tree)
    requires DomOk(t, g) && SizesOk(t, g, NO_PAGE) && q in g.ht && p in t.pages && n in t.pages
    requires q == t.pages[p].parent && q != n && |t.pages[n].keys| > 0
    requires 0 <= i < |t.pages[q].rids| == |t.pages[q].keys|
    requires t' == LinkBelow(t, p, n, i) && DomOk(t', g)
    ensures |t'.pages[q].rids| == |t'.pages[q].keys| <= t.max
    ensures |t'.pages[q].rids| < t.max ==> SizeOk(t', g, q, NO_PAGE)
  {
    assert SizeOk(t, g, q, NO_PAGE);
  }

  /** Once the page being worked on has a legal size, nothing is exempt any more. */
  lemma Settle(t: Tree, g: Shape, x: int)
    requires Inv(t, g, x)
    requires x in g.ht ==> SizeOk(t, g, x, NO_PAGE)
    ensures Inv(t, g, NO_PAGE)
  {
    forall p | p in g.ht ensures SizeOk(t, g, p, NO_PAGE) {
      assert SizeOk(t, g, p, x);
    }
  }

  lemma PendRoot(t: Tree, g: Shape, p: int, n: int)
    requires Pending(t, g, p, n) && t.pages[p].parent == NO_PAGE
    ensures p == t.root
  {
    assert PendUp(t, g, p, p, n);
  }

  lemma PendParent(t: Tree, g: Shape, p: int, n: int)
    requires Pending(t, g, p, n) && t.pages[p].parent != NO_PAGE
    ensures p != t.root && t.pages[p].parent in g.ht && g.ht[t.pages[p].parent] == g.ht[p] + 1
    ensures Rid(p, -1) in t.pages[t.pages[p].parent].rids
    ensures |t.pages[t.pages[p].parent].rids| == |t.pages[t.pages[p].parent].keys|
    ensures forall j | 0 <= j < |t.pages[t.pages[p].parent].rids| :: t.pages[t.pages[p].parent].rids[j].slot == -1
  {
    assert PendUp(t, g, p, p, n);
    var q := t.pages[p].parent;
    assert NodeOk(t, g, q);
    forall j | 0 <= j < |t.pages[q].rids| ensures t.pages[q].rids[j].slot == -1 {
      assert PendKid(t, g, q, j, p, n);
    }
  }

  /** A key of a leaf ends up in the half that the comparison with the separator picks. */
  lemma SplitSide(t: Tree, g: Shape, p: int, k: int)
    requires CanSplit(t, g, p) && g.ht[p] == 0 && k in t.pages[p].keys
    ensures |RightHalf(t, p).keys| > 0
    ensures k >= RightHalf(t, p).keys[0] ==> k in RightHalf(t, p).keys
    ensures k < RightHalf(t, p).keys[0] ==> k in LeftHalf(t, p).keys
  {
    assert NodeOk(t, g, p);
    var n := t.pages[p];
    var s := SplitPos(n);
    var i :| 0 <= i < |n.keys| && n.keys[i] == k;
    if i < s {
      assert LeftHalf(t, p).keys[i] == k;
    } else {
      assert RightHalf(t, p).keys[i - s] == k;
    }
  }

  /** The step changed separators of internal pages and nothing else. */
  ghost predicate OnlyKeys(t: Tree, t': Tree, g: Shape) {
    && t' == t.(pages := t'.pages)
    && t'.pages.Keys == t.pages.Keys
    && (forall p | p in t.pages ::
      t'.pages[p] == t.pages[p].(keys := t'.pages[p].keys) && |t'.pages[p].keys| == |t.pages[p].keys|)
    && (forall p | p in t.pages && (p !in g.ht || g.ht[p] == 0) :: t'.pages[p] == t.pages[p])
  }

  lemma OnlyKeysStep(t0: Tree, t: Tree, g: Shape, q: int, i: int, k: int)
    requires OnlyKeys(t0, t, g) && q in g.ht && g.ht[q] > 0 && q in t.pages && 0 <= i < |t.pages[q].keys|
    ensures OnlyKeys(t0, SetKey(t, q, i, k), g)
  {
  }

  lemma OnlyKeysFlat(t: Tree, t': Tree, g: Shape)
    requires DomOk(t, g) && LeavesOk(t, g) && OnlyKeys(t, t', g)
    ensures Flat(t'.pages, g.leaves) == Flat(t.pages, g.leaves)
  {
    KeepFlat(t, g, t');
  }

  lemma ClimbParent(t: Tree, g: Shape, x: int, p: int)
    requires Frame(t, g, x) && p in g.ht && t.pages[p].parent != NO_PAGE
    ensures p != t.root && t.pages[p].parent in g.ht && g.ht[t.pages[p].parent] == g.ht[p] + 1
    ensures Rid(p, -1) in t.pages[t.pages[p].parent].rids
    ensures |t.pages[t.pages[p].parent].rids| == |t.pages[t.pages[p].parent].keys|
    ensures forall j | 0 <= j < |t.pages[t.pages[p].parent].rids| :: t.pages[t.pages[p].parent].rids[j].slot == -1
  {
    assert UpOk(t, g, p);
    var q := t.pages[p].parent;
    assert NodeOk(t, g, q);
    forall j | 0 <= j < |t.pages[q].rids| ensures t.pages[q].rids[j].slot == -1 {
      assert KidOk(t, g, q, j);
    }
  }

  /** No child is listed twice. */
  ghost predicate UniqueKids(rids: seq<Rid>) {
    && (forall i | 0 <= i < |rids| :: rids[i].slot == -1)
    && (forall i, j | 0 <= i < j < |rids| :: rids[i].page != rids[j].page)
  }

  lemma InnerKids(t: Tree, g: Shape, x: int, p: int)
    requires Inv(t, g, x) && p in g.ht && g.ht[p] > 0
    ensures UniqueKids(t.pages[p].rids) && |t.pages[p].keys| == |t.pages[p].rids|
  {
    InnerShape(t, g, x, p);
    forall i, j | 0 <= i < j < |t.pages[p].rids| ensures t.pages[p].rids[i].page != t.pages[p].rids[j].page {
      KidsDistinct(t, g, p, i, j);
    }
  }

  /** `node`, in slot `index` of `parent`, is one entry short; `neighbor` is the sibling it turns to. */
  ghost predicate Underfull(t: Tree, g: Shape, neighbor: int, node: int, parent: int, index: int) {
    && Inv(t, g, node) && parent in g.ht && g.ht[parent] > 0
    && 0 <= index < |t.pages[parent].rids| && t.pages[parent].rids[index] == Rid(node, -1)
    && (index == 0 ==> 1 < |t.pages[parent].rids| && t.pages[parent].rids[1] == Rid(neighbor, -1))
    && (index > 0 ==> t.pages[parent].rids[index - 1] == Rid(neighbor, -1))
    && node in g.ht && neighbor in g.ht && |t.pages[node].rids| == MinSize(t) - 1
  }

  lemma UnderfullFacts(t: Tree, g: Shape, neighbor: int, node: int, parent: int, index: int)
    requires Underfull(t, g, neighbor, node, parent, index)
    ensures index == 0 ==> Siblings(t, g, parent, 0, node, neighbor)
    ensures index > 0 ==> Siblings(t, g, parent, index - 1, neighbor, node)
    ensures neighbor in t.pages && neighbor != node && parent != node && parent != neighbor
    ensures t.pages[node].leaf == t.pages[neighbor].leaf == (g.ht[node] == 0)
    ensures UniqueKids(t.pages[parent].rids) && |t.pages[parent].keys| == |t.pages[parent].rids|
    ensures |t.pages[node].keys| == |t.pages[node].rids| && |t.pages[neighbor].keys| == |t.pages[neighbor].rids|
    ensures MinSize(t) <= |t.pages[neighbor].rids| < t.max
    ensures !t.pages[node].leaf ==> PointBack(t, neighbor, parent, node, neighbor)
    ensures !t.pages[node].leaf ==> UniqueKids(t.pages[neighbor].rids)
  {
    UnderfullShape(t, g, neighbor, node, parent, index);
    NeighbourSize(t, g, neighbor, node, parent, index);
    if g.ht[node] > 0 {
      UnderfullKids(t, g, neighbor, node, parent, index);
    }
  }

  lemma UnderfullShape(t: Tree, g: Shape, neighbor: int, node: int, parent: int, index: int)
    requires Underfull(t, g, neighbor, node, parent, index)
    ensures index == 0 ==> Siblings(t, g, parent, 0, node, neighbor)
    ensures index > 0 ==> Siblings(t, g, parent, index - 1, neighbor, node)
    ensures neighbor in t.pages && neighbor != node && parent != node && parent != neighbor
    ensures t.pages[node].leaf == t.pages[neighbor].leaf == (g.ht[node] == 0)
    ensures UniqueKids(t.pages[parent].rids) && |t.pages[parent].keys| == |t.pages[parent].rids|
    ensures |t.pages[node].keys| == |t.pages[node].rids| && |t.pages[neighbor].keys| == |t.pages[neighbor].rids|
  {
    var a := if index == 0 then 0 else index - 1;
    var l, r := if index == 0 then node else neighbor, if index == 0 then neighbor else node;
    InnerKids(t, g, node, parent);
    SiblingsInSlots(t, g, node, parent, a, l, r);
  }

  lemma SiblingsInSlots(t: Tree, g: Shape, x: int, q: int, a: int, l: int, r: int)
    requires Inv(t, g, x) && q in g.ht && g.ht[q] > 0 && 0 <= a && a + 1 < |t.pages[q].rids|
    requires t.pages[q].rids[a] == Rid(l, -1) && t.pages[q].rids[a + 1] == Rid(r, -1)
    ensures Siblings(t, g, q, a, l, r) && l in t.pages && r in t.pages && q != l && q != r && l != r
    ensures t.pages[l].leaf == t.pages[r].leaf == (g.ht[l] == 0) && g.ht[l] == g.ht[r]
    ensures |t.pages[l].keys| == |t.pages[l].rids| && |t.pages[r].keys| == |t.pages[r].rids|
  {
    SiblingsAt(t, g, q, a);
    SiblingsAlike(t, g, q, a, l, r);
  }

  lemma SiblingsAlike(t: Tree, g: Shape, q: int, a: int, l: int, r: int)
    requires Siblings(t, g, q, a, l, r) && NodesOk(t, g)
    ensures l in t.pages && r in t.pages && q != l && q != r && l != r
    ensures t.pages[l].leaf == t.pages[r].leaf == (g.ht[l] == 0) && g.ht[l] == g.ht[r]
    ensures |t.pages[l].keys| == |t.pages[l].rids| && |t.pages[r].keys| == |t.pages[r].rids|
  {
    assert NodeOk(t, g, l) && NodeOk(t, g, r);
  }

  lemma UnderfullKids(t: Tree, g: Shape, neighbor: int, node: int, parent: int, index: int)
    requires Underfull(t, g, neighbor, node, parent, index) && g.ht[node] > 0
    requires index == 0 ==> Siblings(t, g, parent, 0, node, neighbor)
    requires index > 0 ==> Siblings(t, g, parent, index - 1, neighbor, node)
    ensures neighbor in t.pages && PointBack(t, neighbor, parent, node, neighbor) && UniqueKids(t.pages[neighbor].rids)
  {
    InnerKids(t, g, node, neighbor);
    if index == 0 {
      KidsPointBack(t, g, parent, 0, node, neighbor, neighbor);
    } else {
      KidsPointBack(t, g, parent, index - 1, neighbor, node, neighbor);
    }
  }

  lemma NeighbourSize(t: Tree, g: Shape, neighbor: int, node: int, parent: int, index: int)
    requires Underfull(t, g, neighbor, node, parent, index)
    requires neighbor in g.ht && neighbor != node
    ensures MinSize(t) <= |t.pages[neighbor].rids| < t.max
  {
    assert SizeOk(t, g, neighbor, node) && UpOk(t, g, neighbor);
    assert KidOk(t, g, parent, if index == 0 then 1 else index - 1);
  }

  /** The index after the first entry of the right neighbour moved to the end of `node`. */
  function TakeRight(t: Tree, neighbor: int, node: int, parent: int): (t': Tree)
    requires neighbor in t.pages && node in t.pages && parent in t.pages && parent != node && parent != neighbor
    requires |t.pages[node].keys| == |t.pages[node].rids| && 2 <= |t.pages[neighbor].keys| == |t.pages[neighbor].rids|
    requires 1 < |t.pages[parent].keys|
    requires !t.pages[node].leaf ==> t.pages[neighbor].rids[0].page in t.pages
  {
    var n, e := t.pages[node], t.pages[neighbor];
    Borrow(t, parent, 0, node, neighbor,
           InsertPair(n, |n.keys|, e.keys[0], e.rids[0]), ErasePair(e, 0), e.rids[0].page, node)
  }

  /** The index after the last entry of the left neighbour moved to the front of `node`. */
  function TakeLeft(t: Tree, neighbor: int, node: int, parent: int, a: int, m: int): (t': Tree)
    requires neighbor in t.pages && node in t.pages && parent in t.pages && parent != node && parent != neighbor
    requires |t.pages[node].keys| == |t.pages[node].rids| && 2 <= |t.pages[neighbor].keys| == |t.pages[neighbor].rids|
    requires 0 <= a && a + 1 < |t.pages[parent].keys| && m == |t.pages[neighbor].rids| - 1
    requires !t.pages[neighbor].leaf ==> t.pages[neighbor].rids[m].page in t.pages
  {
    var n, e := t.pages[node], t.pages[neighbor];
    Borrow(t, parent, a, neighbor, node, ErasePair(e, m), InsertPair(n, 0, e.keys[m], e.rids[m]), e.rids[m].page, node)
  }

  lemma MoveFromRight(t: Tree, g: Shape, neighbor: int, node: int, parent: int) returns (t': Tree, g': Shape)
    requires Underfull(t, g, neighbor, node, parent, 0) && MinSize(t) < |t.pages[neighbor].rids|
    ensures neighbor != node && parent != node && parent != neighbor
    ensures |t.pages[node].keys| == |t.pages[node].rids| && 2 <= |t.pages[neighbor].keys| == |t.pages[neighbor].rids|
    ensures |t.pages[parent].keys| == |t.pages[parent].rids| && UniqueKids(t.pages[parent].rids)
    ensures !t.pages[node].leaf ==> PointBack(t, neighbor, parent, node, neighbor) && UniqueKids(t.pages[neighbor].rids)
    ensures !t.pages[node].leaf ==> t.pages[neighbor].rids[0].page in t.pages
    ensures t' == TakeRight(t, neighbor, node, parent)
    ensures Climbing(t', g', NO_PAGE, parent, 0) && Flat(t'.pages, g'.leaves) == Flat(t.pages, g.leaves)
  {
    UnderfullFacts(t, g, neighbor, node, parent, 0);
    var n, e := t.pages[node], t.pages[neighbor];
    var nl, nr := InsertPair(n, |n.keys|, e.keys[0], e.rids[0]), ErasePair(e, 0);
    BorrowRight(t, g, parent, 0, node, neighbor, nl, nr);
    g' := DealShape(g, node, neighbor, nr.keys[0]);
    t' := Borrow(t, parent, 0, node, neighbor, nl, nr, e.rids[0].page, node);
    DealFacts(t, g, node, parent, 0, node, neighbor, nl, nr, t', g');
  }

  lemma MoveFromLeft(t: Tree, g: Shape, neighbor: int, node: int, parent: int, index: int, m: int)
    returns (t': Tree, g': Shape)
    requires Underfull(t, g, neighbor, node, parent, index) && index > 0 && MinSize(t) < |t.pages[neighbor].rids|
    requires m == |t.pages[neighbor].rids| - 1
    ensures neighbor != node && parent != node && parent != neighbor && t.pages[node].leaf == t.pages[neighbor].leaf
    ensures |t.pages[node].keys| == |t.pages[node].rids| && 2 <= |t.pages[neighbor].keys| == |t.pages[neighbor].rids|
    ensures |t.pages[parent].keys| == |t.pages[parent].rids| && UniqueKids(t.pages[parent].rids)
    ensures !t.pages[node].leaf ==> PointBack(t, neighbor, parent, node, neighbor) && UniqueKids(t.pages[neighbor].rids)
    ensures !t.pages[neighbor].leaf ==> t.pages[neighbor].rids[m].page in t.pages
    ensures t' == TakeLeft(t, neighbor, node, parent, index - 1, m)
    ensures Climbing(t', g', NO_PAGE, parent, 0) && Flat(t'.pages, g'.leaves) == Flat(t.pages, g.leaves)
  {
    UnderfullFacts(t, g, neighbor, node, parent, index);
    t', g' := DealFromLeft(t, g, neighbor, node, parent, index - 1, m);
  }

  lemma DealFromLeft(t: Tree, g: Shape, neighbor: int, node: int, parent: int, a: int, m: int)
    returns (t': Tree, g': Shape)
    requires Inv(t, g, node) && Siblings(t, g, parent, a, neighbor, node)
    requires |t.pages[node].rids| == MinSize(t) - 1 && MinSize(t) < |t.pages[neighbor].rids| < t.max
    requires m == |t.pages[neighbor].rids| - 1
    ensures parent != node && parent != neighbor
    ensures !t.pages[neighbor].leaf ==> t.pages[neighbor].rids[m].page in t.pages
    ensures t' == TakeLeft(t, neighbor, node, parent, a, m)
    ensures Climbing(t', g', NO_PAGE, parent, 0) && Flat(t'.pages, g'.leaves) == Flat(t.pages, g.leaves)
  {
    var n, e := t.pages[node], t.pages[neighbor];
    var nl, nr := ErasePair(e, m), InsertPair(n, 0, e.keys[m], e.rids[m]);
    BorrowLeft(t, g, parent, a, neighbor, node, m, nl, nr);
    g' := DealShape(g, neighbor, node, nr.keys[0]);
    t' := Borrow(t, parent, a, neighbor, node, nl, nr, e.rids[m].page, node);
    DealFacts(t, g, node, parent, a, neighbor, node, nl, nr, t', g');
  }

  lemma ParentlessIsRoot(t: Tree, g: Shape, x: int, p: int)
    requires Inv(t, g, x) && p in g.ht && t.pages[p].parent == NO_PAGE
    ensures p == t.root
  {
    assert UpOk(t, g, p);
  }

  lemma UnderfullAt(t: Tree, g: Shape, p: int)
    requires Inv(t, g, p) && p in g.ht && t.pages[p].parent != NO_PAGE && |t.pages[p].rids| < MinSize(t)
    ensures p != t.root && t.pages[p].parent in g.ht && g.ht[t.pages[p].parent] == g.ht[p] + 1
    ensures Rid(p, -1) in t.pages[t.pages[p].parent].rids && 2 <= |t.pages[t.pages[p].parent].rids|
    ensures UniqueKids(t.pages[t.pages[p].parent].rids)
    ensures |t.pages[p].rids| == MinSize(t) - 1
  {
    ClimbParent(t, g, p, p);
    var q := t.pages[p].parent;
    InnerKids(t, g, p, q);
    assert SizeOk(t, g, q, p) && SizeOk(t, g, p, p);
  }

  lemma UnderfullNext(t: Tree, g: Shape, p: int, i: int)
    requires Inv(t, g, p) && p in g.ht && p != t.root && |t.pages[p].rids| == MinSize(t) - 1
    requires t.pages[p].parent in g.ht && g.ht[t.pages[p].parent] == g.ht[p] + 1
    requires 0 <= i < |t.pages[t.pages[p].parent].rids| && 2 <= |t.pages[t.pages[p].parent].rids|
    requires t.pages[t.pages[p].parent].rids[i] == Rid(p, -1)
    ensures Underfull(t, g, t.pages[t.pages[p].parent].rids[if i == 0 then 1 else i - 1].page, p, t.pages[p].parent, i)
    ensures MinSize(t) <= |t.pages[t.pages[t.pages[p].parent].rids[if i == 0 then 1 else i - 1].page].rids|
  {
    var q := t.pages[p].parent;
    var j := if i == 0 then 1 else i - 1;
    assert KidOk(t, g, q, j);
    KidsDiffer(t, g, q, i, j);
    NeighbourSize(t, g, t.pages[q].rids[j].page, p, q, i);
  }

  lemma MergeAdopt(t: Tree, g: Shape, x: int, l: int, r: int)
    requires Inv(t, g, x) && l in g.ht && r in g.ht && g.ht[l] == g.ht[r]
    ensures !t.pages[l].leaf ==> Adoptable(t.pages, t.pages[r].rids)
  {
    assert NodeOk(t, g, l) && NodeOk(t, g, r);
    if g.ht[r] > 0 {
      forall i | 0 <= i < |t.pages[r].rids|
        ensures t.pages[r].rids[i].slot == -1 && t.pages[r].rids[i].page in t.pages
      {
        assert KidOk(t, g, r, i);
      }
    }
  }

  /** Absorbing a sibling leaves the parent page alone. */
  lemma MergeParentKept(t: Tree, l: int, r: int, q: int)
    requires l in t.pages && r in t.pages && q in t.pages && q != l
    requires t.pages[l].leaf ==> t.pages[r].next in t.pages && t.pages[r].prev == l && t.pages[r].next != q
    requires !t.pages[l].leaf ==> Rid(q, -1) !in t.pages[r].rids
    ensures MergePages(t, l, r).pages[q] == t.pages[q]
    ensures l in MergePages(t, l, r).pages && MergePages(t, l, r).pages[l].keys == RowKeys(t, l, r)
  {
  }

  lemma CoalesceReady(t: Tree, g: Shape, neighbor: int, node: int, parent: int, index: int)
    requires Underfull(t, g, neighbor, node, parent, index) && |t.pages[neighbor].rids| == MinSize(t)
    ensures index == 0 ==> Siblings(t, g, parent, 0, node, neighbor)
    ensures index > 0 ==> Siblings(t, g, parent, index - 1, neighbor, node)
    ensures MinSize(t) <= |Row(t, node, neighbor)| < t.max && |Row(t, neighbor, node)| == |Row(t, node, neighbor)|
    ensures g.ht[parent] > g.ht[node]
  {
    UnderfullFacts(t, g, neighbor, node, parent, index);
  }

  lemma HigherAfter(g: Shape, g': Shape, p: int, q: int, r: int)
    requires g'.ht == g.ht - {r} && p in g.ht && q in g'.ht && g.ht[q] > g.ht[p]
    ensures Higher(g', q) < Higher(g, p)
  {
    assert q in Higher(g, p) && q !in Higher(g', q);
  }

  /** Everything a merge needs and gives. */
  lemma MergeReady(t: Tree, g: Shape, x: int, q: int, a: int, l: int, r: int)
    requires Inv(t, g, x) && (x == l || x == r) && Siblings(t, g, q, a, l, r)
    requires MinSize(t) <= |Row(t, l, r)| < t.max
    ensures q != l && q != r && t.pages[l].leaf == t.pages[r].leaf && |RowKeys(t, l, r)| > 0
    ensures t.pages[l].leaf ==> t.pages[r].next in t.pages && t.pages[r].prev == l
    ensures t.pages[l].leaf ==> t.pages[r].next != l && t.pages[r].next != r && t.pages[r].next != q
    ensures !t.pages[l].leaf ==> Adoptable(t.pages, t.pages[r].rids) && Rid(q, -1) !in t.pages[r].rids
    ensures UniqueKids(t.pages[q].rids) && |t.pages[q].rids| < t.max
    ensures Climbing(MergeTree(t, q, a, l, r), MergeShape(t, g, l, r), q, q, 0)
    ensures Flat(MergeTree(t, q, a, l, r).pages, MergeShape(t, g, l, r).leaves) == Flat(t.pages, g.leaves)
  {
    MergeFacts(t, g, x, q, a, l, r);
    InnerKids(t, g, x, q);
    assert SizeOk(t, g, q, x) && NodeOk(t, g, l);
    MergeAdopt(t, g, x, l, r);
    if g.ht[l] == 0 {
      RingNeighbours(t, g, x, l, r);
    }
  }

  /** After an erase the separators above the leaf are the only thing left to repair. */
  lemma EraseFacts(t: Tree, g: Shape, p: int, pos: int) returns (g': Shape, was: int)
    requires Inv(t, g, NO_PAGE) && p in g.ht && g.ht[p] == 0
    requires 0 <= pos < |t.pages[p].keys| == |t.pages[p].rids|
    ensures ghost var t' := t.(pages := t.pages[p := ErasePair(t.pages[p], pos)]);
      && g'.leaves == g.leaves && g'.ht == g.ht
      && |t'.pages[p].rids| < t.max
      && (t.pages[p].parent == NO_PAGE ==> Inv(t', g', p))
      && (t.pages[p].parent != NO_PAGE ==> |t'.pages[p].keys| > 0 && Climbing(t', g', p, p, was))
  {
    assert NodeOk(t, g, p) && SizeOk(t, g, p, NO_PAGE) && UpOk(t, g, p);
    var t' := t.(pages := t.pages[p := ErasePair(t.pages[p], pos)]);
    was := t.pages[p].keys[0];
    if pos == 0 && g.lo[p].At? {
      g' := Rename(g, t.pages[p].keys[0], t.pages[p].keys[1]);
      EraseMinInv(t, g, p, t', g');
    } else {
      g' := g;
      EraseOtherInv(t, g, p, pos, t');
    }
  }

  /** The first leaf is empty only in an empty index, so its first slot is always a cursor. */
  lemma BeginPos(t: Tree, g: Shape)
    requires Inv(t, g, NO_PAGE)
    ensures Cursor(t, g, Iid(t.first, 0)) && PosOf(t, g, Iid(t.first, 0)) == 0
  {
    var p := g.leaves[0];
    assert LeafAt(g, 0) && NodeOk(t, g, p) && SizeOk(t, g, p, NO_PAGE);
    var i := LeafIndex(t, g, p);
    if i > 0 { LeafOrder(t, g, 0, i); }
    if p == t.root { OnlyLeaf(t, g, NO_PAGE); }
    assert g.leaves[..0] == [];
  }

  /** Two neighbours of the leaf ring. */
  ghost predicate RingLink(pages: map<int, Node>, a: int, b: int)
  {
    a in pages && b in pages && pages[a].next == b && pages[b].prev == a
  }

  class IxIndexHandle {
    var pages: map<int, Node>
    var rootPage: int
    var firstLeaf: int
    var lastLeaf: int
    var nextPage: int
    const maxSize: int
    ghost var g: Shape

    ghost function T(): (t: Tree)
      reads this
    {
      Tree(pages, rootPage, firstLeaf, lastLeaf, nextPage, maxSize)
    }

    ghost predicate Valid()
      reads this
    {
      Inv(T(), g, NO_PAGE)
    }

    ghost function Map(): (m: map<int, Rid>)
      reads this
    {
      Contents(T(), g)
    }

    /** A freshly created index file: the leaf header page and an empty root leaf. */
    constructor (order: int)
      requires order > 2
      ensures Valid() && Map() == map[] && maxSize == order + 1
    {
      maxSize := order + 1;
      pages := map[LEAF_HEADER := Node([], [], NO_PAGE, true, INIT_ROOT, INIT_ROOT),
                   INIT_ROOT := Node([], [], NO_PAGE, true, LEAF_HEADER, LEAF_HEADER)];
      rootPage, firstLeaf, lastLeaf, nextPage := INIT_ROOT, INIT_ROOT, INIT_ROOT, INIT_ROOT + 1;
      g := Shape(map[INIT_ROOT := 0], map[INIT_ROOT := Inf], map[INIT_ROOT := Inf], [INIT_ROOT]);
      new;
      assert NodeOk(T(), g, INIT_ROOT) && UpOk(T(), g, INIT_ROOT) && SizeOk(T(), g, INIT_ROOT, NO_PAGE);
      assert LeafAt(g, 0) && RingSlot(T(), g, 0);
      assert g.leaves[1..] == [];
      assert Flat(pages, g.leaves) == [];
    }

    /** Walk from the root to the leaf responsible for a key. */
    method FindLeafPage(key: int) returns (leaf: int)
      requires Valid()
      ensures leaf in g.ht && g.ht[leaf] == 0
      ensures Below(g.lo[leaf], key) && Above(key, g.hi[leaf])
      ensures leaf in pages && |pages[leaf].keys| == |pages[leaf].rids| && Sorted(pages[leaf].keys)
    {
      leaf := rootPage;
      assert UpOk(T(), g, leaf) && NodeOk(T(), g, leaf);
      while !pages[leaf].leaf
        invariant leaf in g.ht && NodeOk(T(), g, leaf)
        invariant Below(g.lo[leaf], key) && Above(key, g.hi[leaf])
        decreases g.ht[leaf]
      {
        InnerShape(T(), g, NO_PAGE, leaf);
        var up := UpperBound(pages[leaf].keys, key);
        ChildHolds(T(), g, NO_PAGE, leaf, key, up);
        leaf := pages[leaf].rids[up - 1].page;
      }
    }

    /** Point lookup is lookup in the abstract map. */
    method GetValue(key: int) returns (found: bool, value: Rid)
      requires Valid()
      ensures found == (key in Map())
      ensures found ==> value == Map()[key]
    {
      var leaf := FindLeafPage(key);
      var pos := LowerBound(pages[leaf].keys, key);
      Lookup(T(), g, leaf, key, pos);
      value := Rid(NO_PAGE, NO_PAGE);
      found := pos < |pages[leaf].keys| && pages[leaf].keys[pos] == key;
      if found {
        value := pages[leaf].rids[pos];
      }
    }

    // ---------------------------------------------------------------- insertion

    /** Set the parent field of child `i` of an internal page. */
    method MaintainChild(node: int, i: int)
      requires node in pages && 0 <= i < |pages[node].rids|
      requires !pages[node].leaf ==> pages[node].rids[i].page in pages
      modifies this`pages
      ensures !old(pages[node].leaf) ==>
                pages == old(pages[pages[node].rids[i].page := pages[pages[node].rids[i].page].(parent := node)])
      ensures old(pages[node].leaf) ==> pages == old(pages)
    {
      if !pages[node].leaf {
        var child := pages[node].rids[i].page;
        pages := pages[child := pages[child].(parent := node)];
      }
    }

    /** Move the upper half of an overfull page to a new page on its right. */
    method Split(node: int) returns (newNode: int)
      requires node in pages && |pages[node].keys| == |pages[node].rids| && nextPage !in pages
      requires pages[node].leaf ==> pages[node].next in pages && pages[node].next != node
      requires !pages[node].leaf ==> Adoptable(pages, RightHalf(T(), node).rids)
      modifies this`pages, this`nextPage, this`lastLeaf
      ensures newNode == old(nextPage)
      ensures T() == SplitTree(old(T()), node)
    {
      newNode := nextPage;
      nextPage := nextPage + 1;
      var n := pages[node];
      var s := |n.rids| / 2;
      pages := pages[newNode := Node(n.keys[s..], n.rids[s..], n.parent, n.leaf, NO_PAGE, NO_PAGE)]
                    [node := n.(keys := n.keys[..s], rids := n.rids[..s])];
      if n.leaf {
        pages := pages[newNode := pages[newNode].(prev := node, next := n.next)];
        pages := pages[n.next := pages[n.next].(prev := newNode)];
        pages := pages[node := pages[node].(next := newNode)];
        if lastLeaf == node {
          lastLeaf := newNode;
        }
      } else {
        AdoptFrom(newNode, 0, n.rids[s..]);
      }
      assert pages == SplitTree(old(T()), node).pages;
    }

    /** The children of `node` from slot `from` on get `node` as their parent. */
    method AdoptFrom(node: int, from: int, ghost rids: seq<Rid>)
      requires node in pages && !pages[node].leaf && 0 <= from <= |pages[node].rids|
      requires pages[node].rids[from..] == rids && Adoptable(pages, rids)
      modifies this`pages
      ensures pages == Reparent(old(pages), rids, node)
    {
      var i := from;
      ghost var k := 0;
      assert rids[..0] == [];
      while i < |pages[node].rids|
        invariant 0 <= k <= |rids| && i == from + k
        invariant pages == Reparent(old(pages), rids[..k], node)
        invariant |pages[node].rids| == from + |rids| && pages[node].rids[from..] == rids && !pages[node].leaf
        decreases |rids| - k
      {
        ReparentStep(old(pages), rids, k, node);
        assert pages[node].rids[i] == pages[node].rids[from..][k];
        MaintainChild(node, i);
        i, k := i + 1, k + 1;
      }
      assert rids[..k] == rids;
    }

    method LinkNewRoot(oldNode: int, newNode: int)
      requires oldNode in pages && newNode in pages && |pages[oldNode].keys| > 0 && |pages[newNode].keys| > 0
      requires nextPage !in pages
      modifies this`pages, this`nextPage, this`rootPage
      ensures T() == LinkRoot(old(T()), oldNode, newNode)
    {
      var root := nextPage;
      nextPage := nextPage + 1;
      pages := pages[root := Node([pages[oldNode].keys[0], pages[newNode].keys[0]],
                                  [Rid(oldNode, -1), Rid(newNode, -1)], NO_PAGE, false, NO_PAGE, NO_PAGE)];
      pages := pages[oldNode := pages[oldNode].(parent := root)];
      pages := pages[newNode := pages[newNode].(parent := root)];
      rootPage := root;
    }

    method LinkToParent(parent: int, oldNode: int, newNode: int) returns (idx: int)
      requires oldNode in pages && newNode in pages && parent in pages && pages[oldNode].parent == parent != newNode
      requires |pages[parent].rids| == |pages[parent].keys| && |pages[newNode].keys| > 0
      requires Rid(oldNode, -1) in pages[parent].rids
      requires forall j | 0 <= j < |pages[parent].rids| :: pages[parent].rids[j].slot == -1
      modifies this`pages
      ensures 0 <= idx < |old(pages)[parent].rids| && old(pages)[parent].rids[idx] == Rid(oldNode, -1)
      ensures T() == LinkBelow(old(T()), oldNode, newNode, idx)
    {
      idx := FindChild(pages[parent].rids, oldNode);
      pages := pages[parent := InsertPair(pages[parent], idx + 1, pages[newNode].keys[0], Rid(newNode, -1))];
      pages := pages[newNode := pages[newNode].(parent := parent)];
    }

    /** Make a page that was split off known to its parent, splitting upwards as needed. */
    method InsertIntoParent(oldNode: int, newNode: int)
      requires Pending(T(), g, oldNode, newNode)
      modifies this`pages, this`nextPage, this`lastLeaf, this`rootPage, this`g
      ensures Valid()
      ensures Kept(old(T()), old(g), T(), g)
      decreases Higher(g, oldNode), 0
    {
      ghost var t := T();
      if pages[oldNode].parent == NO_PAGE {
        LinkRootFacts(t, g, oldNode, newNode);
        LinkNewRoot(oldNode, newNode);
        g := RootShape(t, g, oldNode);
      } else {
        var parent := pages[oldNode].parent;
        PendParent(t, g, oldNode, newNode);
        HigherShrinks(g, oldNode, parent);
        var idx := LinkToParent(parent, oldNode, newNode);
        LinkBelowFacts(t, g, oldNode, newNode, idx, parent, T());
        LinkBelowSize(t, g, oldNode, newNode, idx, parent, T());
        if |pages[parent].rids| >= maxSize {
          SplitAbove(parent);
        } else {
          Settle(T(), g, parent);
        }
      }
    }

    /** Split an overfull internal page and link the new half. */
    method SplitAbove(node: int)
      requires CanSplit(T(), g, node) && g.ht[node] > 0
      modifies this`pages, this`nextPage, this`lastLeaf, this`rootPage, this`g
      ensures Valid()
      ensures Kept(old(T()), old(g), T(), g)
      decreases Higher(g, node), 1
    {
      ghost var t := T();
      SplitFacts(t, g, node);
      var newNode := Split(node);
      g := SplitShape(t, g, node);
      assert Higher(g, node) == old(Higher(g, node));
      InsertIntoParent(node, newNode);
    }

    /** Add a binding; an existing key is refused and nothing changes. */
    method InsertEntry(key: int, value: Rid) returns (ok: bool, page: int)
      requires Valid()
      modifies this`pages, this`nextPage, this`lastLeaf, this`rootPage, this`g
      ensures Valid()
      ensures ok == (key !in old(Map()))
      ensures ok ==> Map() == old(Map())[key := value]
      ensures ok ==> page in g.ht && g.ht[page] == 0 && key in pages[page].keys
      ensures !ok ==> T() == old(T()) && g == old(g)
    {
      page := NO_PAGE;
      var found, _ := GetValue(key);
      if found {
        return false, page;
      }
      ghost var t := T();
      var leaf := FindLeafPage(key);
      var pos := LowerBound(pages[leaf].keys, key);
      Lookup(t, g, leaf, key, pos);
      pages := pages[leaf := InsertPair(pages[leaf], pos, key, value)];
      LeafInsert(t, g, leaf, pos, key, value, T());
      InsertContents(t, g, leaf, pos, key, value, T());
      assert pages[leaf].keys[pos] == key;
      assert SizeOk(T(), g, leaf, leaf) && NodeOk(T(), g, leaf);
      assert SizeOk(t, g, leaf, NO_PAGE);
      if |pages[leaf].rids| >= maxSize {
        page := SplitLeaf(leaf, key);
      } else {
        Settle(T(), g, leaf);
        page := leaf;
      }
      ok := true;
    }

    /** Split an overfull leaf; the answer is the half that holds `key`. */
    method SplitLeaf(leaf: int, key: int) returns (page: int)
      requires CanSplit(T(), g, leaf) && g.ht[leaf] == 0 && key in pages[leaf].keys
      modifies this`pages, this`nextPage, this`lastLeaf, this`rootPage, this`g
      ensures Valid() && Map() == old(Map())
      ensures page in g.ht && g.ht[page] == 0 && key in pages[page].keys
    {
      ghost var t := T();
      SplitFacts(t, g, leaf);
      SplitSide(t, g, leaf, key);
      var newLeaf := Split(leaf);
      g := SplitShape(t, g, leaf);
      page := if key >= pages[newLeaf].keys[0] then newLeaf else leaf;
      ghost var t1 := T();
      InsertIntoParent(leaf, newLeaf);
      assert SameEntries(t1, T(), page);
    }

    // ---------------------------------------------------------------- deletion

    /** Carry a changed first key upwards until a parent already shows it. */
    method MaintainParent(node: int, ghost x: int, ghost was: int)
      requires Climbing(T(), g, x, node, was)
      modifies this`pages
      ensures Inv(T(), g, x)
      ensures OnlyKeys(old(T()), T(), g)
    {
      var curr := node;
      while pages[curr].parent != NO_PAGE
        invariant Climbing(T(), g, x, curr, was)
        invariant OnlyKeys(old(T()), T(), g)
        decreases Higher(g, curr)
      {
        ghost var t := T();
        var parent := pages[curr].parent;
        ClimbParent(t, g, x, curr);
        HigherShrinks(g, curr, parent);
        var rank := FindChild(pages[parent].rids, curr);
        if pages[parent].keys[rank] == pages[curr].keys[0] {
          ClimbStop(t, g, x, curr, was, rank);
          return;
        }
        ClimbStep(t, g, x, curr, was, rank, SetKey(t, parent, rank, pages[curr].keys[0]));
        pages := pages[parent := pages[parent].(keys := pages[parent].keys[rank := pages[curr].keys[0]])];
        assert T() == SetKey(t, parent, rank, t.pages[curr].keys[0]);
        OnlyKeysStep(old(T()), t, g, parent, rank, t.pages[curr].keys[0]);
        curr := parent;
      }
      assert UpOk(T(), g, curr);
      ClimbEnd(T(), g, x, curr, was);
    }

    /** Move the first entry of the right neighbour to the end of `node`. */
    method TakeFirst(neighbor: int, node: int, parent: int)
      requires neighbor in pages && node in pages && parent in pages
      requires neighbor != node && parent != node && parent != neighbor
      requires |pages[node].keys| == |pages[node].rids| && 2 <= |pages[neighbor].keys| == |pages[neighbor].rids|
      requires |pages[parent].keys| == |pages[parent].rids| && UniqueKids(pages[parent].rids)
      requires 1 < |pages[parent].rids| && pages[parent].rids[0] == Rid(node, -1)
      requires pages[parent].rids[1] == Rid(neighbor, -1)
      requires !pages[node].leaf ==>
        PointBack(T(), neighbor, parent, node, neighbor) && UniqueKids(pages[neighbor].rids)
      modifies this`pages
      ensures !old(pages)[node].leaf ==> old(pages)[neighbor].rids[0].page in old(pages)
      ensures T() == TakeRight(old(T()), neighbor, node, parent)
    {
      var n := pages[neighbor];
      assert n.rids[0] in n.rids;
      pages := pages[node := InsertPair(pages[node], |pages[node].keys|, n.keys[0], n.rids[0])];
      pages := pages[neighbor := ErasePair(n, 0)];
      MaintainChild(node, |pages[node].rids| - 1);
      RefreshSeparators(parent, node, neighbor, 0, 1);
    }

    /** Move the last entry of the left neighbour to the front of `node`. */
    method TakeLast(neighbor: int, node: int, parent: int, index: int, ghost m: int)
      requires neighbor in pages && node in pages && parent in pages
      requires neighbor != node && parent != node && parent != neighbor && pages[node].leaf == pages[neighbor].leaf
      requires |pages[node].keys| == |pages[node].rids| && 2 <= |pages[neighbor].keys| == |pages[neighbor].rids|
      requires |pages[parent].keys| == |pages[parent].rids| && UniqueKids(pages[parent].rids)
      requires 0 < index < |pages[parent].rids| && pages[parent].rids[index] == Rid(node, -1)
      requires pages[parent].rids[index - 1] == Rid(neighbor, -1)
      requires !pages[node].leaf ==>
        PointBack(T(), neighbor, parent, node, neighbor) && UniqueKids(pages[neighbor].rids)
      requires m == |pages[neighbor].rids| - 1
      modifies this`pages
      ensures !old(pages)[neighbor].leaf ==> old(pages)[neighbor].rids[m].page in old(pages)
      ensures T() == TakeLeft(old(T()), neighbor, node, parent, index - 1, m)
    {
      var n := pages[neighbor];
      var last := |n.keys| - 1;
      assert n.rids[last] in n.rids;
      pages := pages[node := InsertPair(pages[node], 0, n.keys[last], n.rids[last])];
      pages := pages[neighbor := ErasePair(n, last)];
      MaintainChild(node, 0);
      RefreshSeparators(parent, node, neighbor, index, index - 1);
      ghost var keys := old(pages)[parent].keys;
      assert keys[index := pages[node].keys[0]][index - 1 := pages[neighbor].keys[0]]
             == keys[index - 1 := pages[neighbor].keys[0]][index := pages[node].keys[0]];
    }

    /** The parent shows the first keys of both siblings. */
    method RefreshSeparators(parent: int, node: int, neighbor: int, ghost i: int, ghost j: int)
      requires parent in pages && node in pages && neighbor in pages && parent != node && parent != neighbor
      requires |pages[parent].keys| == |pages[parent].rids| && UniqueKids(pages[parent].rids)
      requires 0 <= i < |pages[parent].rids| && pages[parent].rids[i] == Rid(node, -1)
      requires 0 <= j < |pages[parent].rids| && pages[parent].rids[j] == Rid(neighbor, -1)
      requires |pages[node].keys| > 0 && |pages[neighbor].keys| > 0
      modifies this`pages
      ensures pages == old(pages)[parent := old(pages)[parent].(keys :=
                old(pages)[parent].keys[i := old(pages)[node].keys[0]][j := old(pages)[neighbor].keys[0]])]
    {
      var nodeIdx := FindChild(pages[parent].rids, node);
      assert nodeIdx == i;
      pages := pages[parent := pages[parent].(keys := pages[parent].keys[nodeIdx := pages[node].keys[0]])];
      var neighborIdx := FindChild(pages[parent].rids, neighbor);
      assert neighborIdx == j;
      pages := pages[parent := pages[parent].(keys := pages[parent].keys[neighborIdx := pages[neighbor].keys[0]])];
    }

    /** Redistribute between an underfull page and a neighbour that can spare an entry. */
    method Redistribute(neighbor: int, node: int, parent: int, index: int)
      requires Underfull(T(), g, neighbor, node, parent, index)
      requires MinSize(T()) < |pages[neighbor].rids|
      modifies this`pages, this`g
      ensures Valid()
      ensures Flat(pages, g.leaves) == old(Flat(pages, g.leaves))
    {
      if index == 0 {
        RedistributeFromRight(neighbor, node, parent);
      } else {
        RedistributeFromLeft(neighbor, node, parent, index);
      }
    }

    method RedistributeFromRight(neighbor: int, node: int, parent: int)
      requires Underfull(T(), g, neighbor, node, parent, 0)
      requires MinSize(T()) < |pages[neighbor].rids|
      modifies this`pages, this`g
      ensures Valid()
      ensures Flat(pages, g.leaves) == old(Flat(pages, g.leaves))
    {
      ghost var t', g' := MoveFromRight(T(), g, neighbor, node, parent);
      TakeFirst(neighbor, node, parent);
      g := g';
      Climb(parent);
    }

    method RedistributeFromLeft(neighbor: int, node: int, parent: int, index: int)
      requires Underfull(T(), g, neighbor, node, parent, index) && index > 0
      requires MinSize(T()) < |pages[neighbor].rids|
      modifies this`pages, this`g
      ensures Valid()
      ensures Flat(pages, g.leaves) == old(Flat(pages, g.leaves))
    {
      ghost var m := |pages[neighbor].rids| - 1;
      ghost var t', g' := MoveFromLeft(T(), g, neighbor, node, parent, index, m);
      TakeLast(neighbor, node, parent, index, m);
      g := g';
      Climb(parent);
    }

    /** Refresh the separators above a page whose own separators are right. */
    method Climb(node: int)
      requires Climbing(T(), g, NO_PAGE, node, 0)
      modifies this`pages
      ensures Valid()
      ensures Flat(pages, g.leaves) == old(Flat(pages, g.leaves))
    {
      ghost var t := T();
      MaintainParent(node, NO_PAGE, 0);
      OnlyKeysFlat(t, T(), g);
    }

    /** Take a leaf out of the leaf ring: its neighbours are linked to each other, every other link of the ring stays,
        and no entry of any page changes. */
    method EraseLeaf(leaf: int)
      requires leaf in pages && pages[leaf].prev in pages && pages[leaf].next in pages
      requires pages[leaf].prev != leaf && pages[leaf].next != leaf
      modifies this`pages
      ensures RingLink(pages, old(pages)[leaf].prev, old(pages)[leaf].next)
      ensures RingLink(old(pages), old(pages)[leaf].prev, leaf) && RingLink(old(pages), leaf, old(pages)[leaf].next) ==>
        forall a, b :: a != leaf && b != leaf && RingLink(old(pages), a, b) ==> RingLink(pages, a, b)
      ensures pages.Keys == old(pages).Keys
      ensures forall p :: p in pages && p != old(pages)[leaf].prev && p != old(pages)[leaf].next ==>
        pages[p] == old(pages)[p]
      ensures forall p :: p in pages ==> pages[p] == old(pages)[p].(next := pages[p].next, prev := pages[p].prev)
      ensures old(pages)[leaf].prev != old(pages)[leaf].next ==>
        && pages[old(pages)[leaf].prev].prev == old(pages)[old(pages)[leaf].prev].prev
        && pages[old(pages)[leaf].next].next == old(pages)[old(pages)[leaf].next].next
    {
      var prev := pages[leaf].prev;
      pages := pages[prev := pages[prev].(next := pages[leaf].next)];
      var next := pages[leaf].next;
      pages := pages[next := pages[next].(prev := pages[leaf].prev)];
    }

    /** Append the entries of the right sibling to the left one. */
    method Absorb(left: int, right: int)
      requires left in pages && right in pages && left != right
      requires |pages[left].keys| == |pages[left].rids| && pages[left].leaf == pages[right].leaf
      requires pages[left].leaf ==> pages[right].next in pages && pages[right].prev == left
      requires pages[left].leaf ==> pages[right].next != left && pages[right].next != right
      requires !pages[left].leaf ==> Adoptable(pages, pages[right].rids)
      modifies this`pages, this`lastLeaf
      ensures T() == MergePages(old(T()), left, right)
    {
      var oldSize := |pages[left].rids|;
      pages := pages[left := pages[left].(keys := pages[left].keys + pages[right].keys,
                                          rids := pages[left].rids + pages[right].rids)];
      if pages[left].leaf {
        if lastLeaf == right {
          lastLeaf := left;
        }
        ghost var next := pages[right].next;
        ghost var was := pages;
        EraseLeaf(right);
        assert pages == was[left := was[left].(next := next)][next := was[next].(prev := left)];
      } else {
        assert pages[left].rids[oldSize..] == old(pages)[right].rids;
        AdoptFrom(left, oldSize, old(pages)[right].rids);
      }
    }

    /** The parent drops slot `index` and shows the first key of the sibling left of it. */
    method DropSlot(parent: int, index: int, left: int)
      requires parent in pages && left in pages && parent != left && |pages[left].keys| > 0
      requires |pages[parent].keys| == |pages[parent].rids| && UniqueKids(pages[parent].rids)
      requires 1 <= index < |pages[parent].rids| && pages[parent].rids[index - 1] == Rid(left, -1)
      modifies this`pages
      ensures pages == old(pages)[parent :=
                ErasePair(old(pages)[parent].(keys := old(pages)[parent].keys[index - 1 := old(pages)[left].keys[0]]),
                          index)]
    {
      var n := pages[parent];
      pages := pages[parent := ErasePair(n, index)];
      var m := pages[parent];
      assert forall i | 0 <= i < |m.rids| :: m.rids[i] == n.rids[if i < index then i else i + 1];
      assert m.rids[index - 1] == Rid(left, -1);
      var leftIdx := FindChild(m.rids, left);
      assert leftIdx == index - 1;
      pages := pages[parent := m.(keys := m.keys[leftIdx := pages[left].keys[0]])];
      assert pages[parent].keys == ErasePair(n.(keys := n.keys[index - 1 := old(pages)[left].keys[0]]), index).keys;
    }

    /** A root with a single child gives way to that child. */
    method AdjustRoot() returns (dropped: bool)
      requires Inv(T(), g, rootPage) && |pages[rootPage].rids| < maxSize
      modifies this`pages, this`rootPage, this`firstLeaf, this`lastLeaf, this`g
      ensures Valid()
      ensures Flat(pages, g.leaves) == old(Flat(pages, g.leaves))
      ensures dropped == (rootPage != old(rootPage))
    {
      ghost var t := T();
      assert NodeOk(t, g, rootPage) && SizeOk(t, g, rootPage, rootPage);
      dropped := false;
      if !pages[rootPage].leaf && |pages[rootPage].rids| == 1 {
        CollapseInv(t, g);
        KeepCollapse(t, g);
        assert KidOk(t, g, rootPage, 0);
        var child := pages[rootPage].rids[0].page;
        pages := pages[child := pages[child].(parent := NO_PAGE)];
        rootPage := child;
        g := CollapseShape(t, g);
        return true;
      }
      Settle(t, g, rootPage);
      if pages[rootPage].leaf && |pages[rootPage].rids| == 0 {
        OnlyLeaf(t, g, NO_PAGE);
        firstLeaf := rootPage;
        lastLeaf := rootPage;
      }
    }

    /** Restore the minimum size of a page after an entry has left it. */
    method CoalesceOrRedistribute(node: int) returns (dropped: bool)
      requires Inv(T(), g, node) && node in g.ht && |pages[node].rids| < maxSize
      modifies this`pages, this`rootPage, this`firstLeaf, this`lastLeaf, this`g
      ensures Valid()
      ensures Flat(pages, g.leaves) == old(Flat(pages, g.leaves))
      ensures dropped == (rootPage != old(rootPage))
      decreases Higher(g, node), 1
    {
      ghost var t := T();
      assert UpOk(t, g, node) && SizeOk(t, g, node, node);
      if pages[node].parent == NO_PAGE {
        ParentlessIsRoot(t, g, node, node);
        dropped := AdjustRoot();
        return;
      }
      if |pages[node].rids| >= maxSize / 2 {
        ClimbParent(t, g, node, node);
        Settle(t, g, node);
        return false;
      }
      var parent := pages[node].parent;
      UnderfullAt(t, g, node);
      var index := FindChild(pages[parent].rids, node);
      UnderfullNext(t, g, node, index);
      var neighbor := pages[parent].rids[if index == 0 then 1 else index - 1].page;
      if |pages[neighbor].rids| + |pages[node].rids| >= 2 * (maxSize / 2) {
        Redistribute(neighbor, node, parent, index);
        return false;
      }
      HigherShrinks(g, node, parent);
      dropped := Coalesce(neighbor, node, parent, index);
    }

    /** Merge an underfull page with its neighbour and carry on at the parent. */
    method Coalesce(neighbor: int, node: int, parent: int, index: int) returns (dropped: bool)
      requires Underfull(T(), g, neighbor, node, parent, index)
      requires |pages[neighbor].rids| == MinSize(T())
      modifies this`pages, this`rootPage, this`firstLeaf, this`lastLeaf, this`g
      ensures Valid()
      ensures Flat(pages, g.leaves) == old(Flat(pages, g.leaves))
      ensures dropped == (rootPage != old(rootPage))
      decreases Higher(g, node), 0
    {
      var left, right, idx := neighbor, node, index;
      if index == 0 {
        left, right, idx := node, neighbor, 1;
      }
      CoalesceReady(T(), g, neighbor, node, parent, index);
      MergeSiblings(left, right, parent, idx, node);
      HigherAfter(old(g), g, node, parent, right);
      dropped := CoalesceOrRedistribute(parent);
    }

    /** Merge `right` into `left` and repair the separators above. */
    method MergeSiblings(left: int, right: int, parent: int, idx: int, ghost x: int)
      requires Inv(T(), g, x) && (x == left || x == right) && idx >= 1
      requires Siblings(T(), g, parent, idx - 1, left, right)
      requires MinSize(T()) <= |Row(T(), left, right)| < maxSize
      modifies this`pages, this`lastLeaf, this`g
      ensures Inv(T(), g, parent) && parent in g.ht && |pages[parent].rids| < maxSize
      ensures Flat(pages, g.leaves) == old(Flat(pages, g.leaves))
      ensures g.ht == old(g.ht) - {right}
    {
      ghost var t := T();
      MergeReady(t, g, x, parent, idx - 1, left, right);
      ghost var g' := MergeShape(t, g, left, right);
      MergeInto(left, right, parent, idx);
      g := g';
      ghost var t' := T();
      MaintainParent(parent, parent, 0);
      OnlyKeysFlat(t', T(), g);
    }

    /** Merge `right` into `left` and drop its slot from the parent. */
    method MergeInto(left: int, right: int, parent: int, idx: int)
      requires left in pages && right in pages && parent in pages && left != right && parent != left && parent != right
      requires |pages[left].keys| == |pages[left].rids| && pages[left].leaf == pages[right].leaf
      requires pages[left].leaf ==> pages[right].next in pages && pages[right].prev == left
      requires pages[left].leaf ==>
        pages[right].next != left && pages[right].next != right && pages[right].next != parent
      requires !pages[left].leaf ==> Adoptable(pages, pages[right].rids) && Rid(parent, -1) !in pages[right].rids
      requires |pages[parent].keys| == |pages[parent].rids| && UniqueKids(pages[parent].rids)
      requires 1 <= idx < |pages[parent].rids| && pages[parent].rids[idx - 1] == Rid(left, -1)
      requires |RowKeys(T(), left, right)| > 0
      modifies this`pages, this`lastLeaf
      ensures T() == MergeTree(old(T()), parent, idx - 1, left, right)
    {
      ghost var t := T();
      Absorb(left, right);
      MergeParentKept(t, left, right, parent);
      DropSlot(parent, idx, left);
    }

    /** Remove the binding of a key, if there is one. */
    method DeleteEntry(key: int) returns (found: bool)
      requires Valid()
      modifies this`pages, this`rootPage, this`firstLeaf, this`lastLeaf, this`g
      ensures Valid()
      ensures found == (key in old(Map()))
      ensures Map() == old(Map()) - {key}
      ensures !found ==> T() == old(T()) && g == old(g)
    {
      ghost var t := T();
      var leaf := FindLeafPage(key);
      var pos := LowerBound(pages[leaf].keys, key);
      Lookup(t, g, leaf, key, pos);
      if pos == |pages[leaf].keys| || pages[leaf].keys[pos] != key {
        return false;
      }
      pages := pages[leaf := ErasePair(pages[leaf], pos)];
      EraseContents(t, g, leaf, pos, T());
      ghost var g', was := EraseFacts(t, g, leaf, pos);
      g := g';
      if pages[leaf].parent != NO_PAGE && |pages[leaf].rids| > 0 {
        ghost var t' := T();
        MaintainParent(leaf, leaf, was);
        OnlyKeysFlat(t', T(), g);
      }
      var _ := CoalesceOrRedistribute(leaf);
      found := true;
    }

    // ---------------------------------------------------------------- cursors

    /** The cursor of a leaf slot: past the last slot of an inner leaf it moves to the next leaf. */
    method CursorAt(leaf: int, slot: int) returns (iid: Iid)
      requires Valid() && leaf in g.ht && g.ht[leaf] == 0 && 0 <= slot <= |pages[leaf].keys|
      ensures Cursor(T(), g, iid)
      ensures PosOf(T(), g, iid) == Before(T(), g, LeafIndex(T(), g, leaf)) + slot
    {
      if slot < |pages[leaf].keys| {
        iid := Iid(leaf, slot);
      } else if leaf != lastLeaf {
        iid := Iid(pages[leaf].next, 0);
      } else {
        iid := LeafEnd();
      }
      SlotPos(T(), g, leaf, slot, iid);
    }

    method LeafEnd() returns (iid: Iid)
      requires Valid()
      ensures lastLeaf in pages && iid == Iid(lastLeaf, |pages[lastLeaf].keys|)
      ensures Cursor(T(), g, iid) && PosOf(T(), g, iid) == |All(T(), g)|
    {
      ghost var i := |g.leaves| - 1;
      assert LeafAt(g, i);
      iid := Iid(lastLeaf, |pages[lastLeaf].keys|);
      SlotPos(T(), g, lastLeaf, iid.slot, iid);
      PosEntry(T(), g, iid);
    }

    method LeafBegin() returns (iid: Iid)
      requires Valid()
      ensures Cursor(T(), g, iid) && PosOf(T(), g, iid) == 0
    {
      iid := Iid(firstLeaf, 0);
      BeginPos(T(), g);
    }

    /** The first entry whose key is not below `key`. */
    method LowerBoundIid(key: int) returns (iid: Iid)
      requires Valid()
      ensures Cursor(T(), g, iid) && CutBelow(All(T(), g), key, PosOf(T(), g, iid))
    {
      var leaf := FindLeafPage(key);
      var slot := LowerBound(pages[leaf].keys, key);
      LeafCut(T(), g, leaf, key, slot, false);
      iid := CursorAt(leaf, slot);
    }

    /** The first entry whose key is above `key`. */
    method UpperBoundIid(key: int) returns (iid: Iid)
      requires Valid()
      ensures Cursor(T(), g, iid) && CutAbove(All(T(), g), key, PosOf(T(), g, iid))
    {
      var leaf := FindLeafPage(key);
      var slot := LowerBound(pages[leaf].keys, key);
      if slot < |pages[leaf].keys| && pages[leaf].keys[slot] == key {
        slot := slot + 1;
      }
      LeafCut(T(), g, leaf, key, slot, true);
      iid := CursorAt(leaf, slot);
    }
  }
}
