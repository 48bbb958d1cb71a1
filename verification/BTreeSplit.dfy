/** Splitting an overfull page into two. */
module BTreeSplit {
  import opened Rids
  import opened BTreeState
  import opened BTreeOrder

  /** The pages listed in `rids` get `q` as their parent. */
  function Reparent(pages: map<int, Node>, rids: seq<Rid>, q: int): (m: map<int, Node>)
    ensures m.Keys == pages.Keys
    ensures forall p | p in pages :: m[p] == if Rid(p, -1) in rids then pages[p].(parent := q) else pages[p]
  {
    map p | p in pages :: if Rid(p, -1) in rids then pages[p].(parent := q) else pages[p]
  }

  function SplitPos(n: Node): int {
    |n.rids| / 2
  }

  function LeftHalf(t: Tree, p: int): Node
    requires p in t.pages && |t.pages[p].keys| == |t.pages[p].rids|
  {
    var n := t.pages[p];
    n.(keys := n.keys[..SplitPos(n)], rids := n.rids[..SplitPos(n)],
       next := if n.leaf then t.nextPage else n.next)
  }

  function RightHalf(t: Tree, p: int): Node
    requires p in t.pages && |t.pages[p].keys| == |t.pages[p].rids|
  {
    var n := t.pages[p];
    Node(n.keys[SplitPos(n)..], n.rids[SplitPos(n)..], n.parent, n.leaf,
         if n.leaf then p else NO_PAGE, if n.leaf then n.next else NO_PAGE)
  }

  /** The index after page `p` has been split: the right half moves to a new page, which is
      linked into the leaf ring, or takes over its children. */
  function SplitTree(t: Tree, p: int): (t': Tree)
    requires p in t.pages && |t.pages[p].keys| == |t.pages[p].rids|
    requires t.pages[p].leaf ==> t.pages[p].next in t.pages
  {
    var n := t.nextPage;
    var pages := t.pages[n := RightHalf(t, p)][p := LeftHalf(t, p)];
    if t.pages[p].leaf then
      var nx := t.pages[p].next;
      t.(pages := pages[nx := pages[nx].(prev := n)],
         last := if t.last == p then n else t.last,
         nextPage := n + 1)
    else
      t.(pages := Reparent(pages, RightHalf(t, p).rids, n), nextPage := n + 1)
  }

  ghost function Separator(t: Tree, p: int): int
    requires p in t.pages && 2 <= |t.pages[p].rids| == |t.pages[p].keys|
  {
    t.pages[p].keys[SplitPos(t.pages[p])]
  }

  ghost function InsertAfter(ls: seq<int>, i: int, n: int): (r: seq<int>)
    requires 0 <= i < |ls|
  {
    ls[..i + 1] + [n] + ls[i + 1..]
  }

  ghost function SplitShape(t: Tree, g: Shape, p: int): (g': Shape)
    requires DomOk(t, g) && LeavesOk(t, g) && p in g.ht
    requires 2 <= |t.pages[p].rids| == |t.pages[p].keys|
  {
    var n, key := t.nextPage, Separator(t, p);
    Shape(g.ht[n := g.ht[p]], g.lo[n := At(key)], g.hi[n := g.hi[p]][p := At(key)],
          if g.ht[p] == 0 then InsertAfter(g.leaves, LeafIndex(t, g, p), n) else g.leaves)
  }

  // ---------------------------------------------------------------- the state between split and link

  ghost predicate PendKid(t: Tree, g: Shape, q: int, i: int, p: int, n: int)
    requires DomOk(t, g) && q in g.ht && 0 <= i < |t.pages[q].rids| && n in g.ht
  {
    && KidBase(t, g, q, i)
    && t.pages[q].rids[i].page != n
    && KidHi(t, g, q, i, if t.pages[q].rids[i].page == p then g.hi[n] else g.hi[t.pages[q].rids[i].page])
  }

  ghost predicate PendKids(t: Tree, g: Shape, p: int, n: int)
    requires DomOk(t, g) && n in g.ht
  {
    forall q, i | q in g.ht && g.ht[q] > 0 && 0 <= i < |t.pages[q].rids| :: PendKid(t, g, q, i, p, n)
  }

  ghost predicate PendUp(t: Tree, g: Shape, q: int, p: int, n: int)
    requires DomOk(t, g) && q in g.ht && n in g.ht
  {
    if q == t.root then
      t.pages[q].parent == NO_PAGE && g.lo[q] == Inf && (if q == p then g.hi[n] else g.hi[q]) == Inf
    else
      var u := t.pages[q].parent;
      u in g.ht && g.ht[u] == g.ht[q] + 1 && Rid(q, -1) in t.pages[u].rids
  }

  ghost predicate PendUps(t: Tree, g: Shape, p: int, n: int)
    requires DomOk(t, g) && n in g.ht
  {
    forall q | q in g.ht && q != n :: PendUp(t, g, q, p, n)
  }

  /** Page `n` has just been split off to the right of `p` and no parent knows it yet. */
  ghost predicate Pending(t: Tree, g: Shape, p: int, n: int) {
    && DomOk(t, g) && p in g.ht && n in g.ht && p != n && n != t.root
    && g.ht[p] == g.ht[n] && g.lo[n].At? && g.hi[p] == g.lo[n]
    && |t.pages[n].keys| > 0 && t.pages[n].keys[0] == g.lo[n].k
    && |t.pages[p].keys| > 0 && MinSize(t) <= |t.pages[p].rids|
    && NodesOk(t, g)
    && PendKids(t, g, p, n)
    && KeysOk(t, g)
    && PendUps(t, g, p, n)
    && SizesOk(t, g, NO_PAGE)
    && LeavesOk(t, g)
    && RingOk(t, g)
  }

  // ---------------------------------------------------------------- leaf split

  ghost predicate CanSplit(t: Tree, g: Shape, p: int) {
    && Inv(t, g, p) && p in g.ht
    && |t.pages[p].rids| == t.max == |t.pages[p].keys|
  }

  /** Which pages a leaf split changes. */
  ghost predicate LeafSplitView(t: Tree, t': Tree, p: int) {
    && p in t.pages && |t.pages[p].keys| == |t.pages[p].rids|
    && var n, nx := t.nextPage, t.pages[p].next;
    && n !in t.pages && nx in t.pages && nx != p
    && t'.pages.Keys == t.pages.Keys + {n}
    && t'.pages[n] == RightHalf(t, p)
    && t'.pages[p] == LeftHalf(t, p)
    && t'.pages[nx] == t.pages[nx].(prev := n)
    && (forall q | q in t.pages && q != p && q != nx :: t'.pages[q] == t.pages[q])
    && t' == t.(pages := t'.pages, nextPage := n + 1, last := if t.last == p then n else t.last)
  }

  lemma NextLeaf(t: Tree, g: Shape, p: int)
    requires DomOk(t, g) && NodesOk(t, g) && LeavesOk(t, g) && RingOk(t, g)
    requires p in g.ht && g.ht[p] == 0
    ensures t.pages[p].next in t.pages && t.pages[p].next != p
    ensures t.pages[p].next == RingAt(g.leaves, LeafIndex(t, g, p) + 1)
    ensures t.pages[p].prev == RingAt(g.leaves, LeafIndex(t, g, p) - 1)
  {
    var i := LeafIndex(t, g, p);
    assert RingSlot(t, g, i);
    if i + 1 < |g.leaves| {
      assert LeafAt(g, i + 1);
      LeafOrder(t, g, i, i + 1);
    }
  }

  lemma LeafSplitPages(t: Tree, p: int)
    requires p in t.pages && |t.pages[p].keys| == |t.pages[p].rids| && t.pages[p].leaf
    requires t.pages[p].next in t.pages && t.pages[p].next != p
    requires t.nextPage !in t.pages
    ensures LeafSplitView(t, SplitTree(t, p), p)
  {
  }

  lemma LeafSplitDom(t: Tree, g: Shape, p: int, t': Tree, g': Shape)
    requires DomOk(t, g) && NodesOk(t, g) && LeavesOk(t, g) && p in g.ht && g.ht[p] == 0
    requires |t.pages[p].rids| == t.max == |t.pages[p].keys|
    requires LeafSplitView(t, t', p) && g' == SplitShape(t, g, p)
    ensures DomOk(t', g')
  {
  }

  lemma LeafSplitNodes(t: Tree, g: Shape, p: int, t': Tree, g': Shape)
    requires DomOk(t, g) && NodesOk(t, g) && LeavesOk(t, g) && p in g.ht && g.ht[p] == 0
    requires |t.pages[p].rids| == t.max == |t.pages[p].keys|
    requires SizesOk(t, g, p)
    requires LeafSplitView(t, t', p) && g' == SplitShape(t, g, p) && DomOk(t', g')
    ensures NodesOk(t', g') && SizesOk(t', g', NO_PAGE)
  {
    forall q | q in g'.ht ensures NodeOk(t', g', q) && SizeOk(t', g', q, NO_PAGE) {
      assert NodeOk(t, g, p) && SizeOk(t, g, p, p);
      if q != t.nextPage {
        assert NodeOk(t, g, q) && SizeOk(t, g, q, p);
      }
    }
  }

  lemma LeafSplitKids(t: Tree, g: Shape, p: int, t': Tree, g': Shape)
    requires DomOk(t, g) && NodesOk(t, g) && LeavesOk(t, g) && p in g.ht && g.ht[p] == 0
    requires |t.pages[p].rids| == t.max == |t.pages[p].keys|
    requires KidsOk(t, g) && KeysOk(t, g)
    requires LeafSplitView(t, t', p) && g' == SplitShape(t, g, p) && DomOk(t', g')
    ensures PendKids(t', g', p, t.nextPage) && KeysOk(t', g')
  {
    forall q, i | q in g'.ht && g'.ht[q] > 0 && 0 <= i < |t'.pages[q].rids|
      ensures PendKid(t', g', q, i, p, t.nextPage) && KeyOk(t', g', q, i)
    {
      assert NodeOk(t, g, q);
      assert KidOk(t, g, q, i) && KeyOk(t, g, q, i);
    }
  }

  lemma LeafSplitUps(t: Tree, g: Shape, p: int, t': Tree, g': Shape)
    requires DomOk(t, g) && NodesOk(t, g) && LeavesOk(t, g) && p in g.ht && g.ht[p] == 0
    requires |t.pages[p].rids| == t.max == |t.pages[p].keys|
    requires UpsOk(t, g)
    requires LeafSplitView(t, t', p) && g' == SplitShape(t, g, p) && DomOk(t', g')
    ensures PendUps(t', g', p, t.nextPage)
  {
    forall q | q in g'.ht && q != t.nextPage ensures PendUp(t', g', q, p, t.nextPage) {
      assert UpOk(t, g, q);
    }
  }

  /** The leaf list after `n` has been put in after position `a`. */
  lemma InsertAfterAt(ls: seq<int>, a: int, n: int, i: int)
    requires 0 <= a < |ls| && 0 <= i <= |ls|
    ensures InsertAfter(ls, a, n)[i] == if i <= a then ls[i] else if i == a + 1 then n else ls[i - 1]
  {
  }

  lemma LeafNowhereElse(t: Tree, g: Shape, a: int, i: int)
    requires DomOk(t, g) && NodesOk(t, g) && LeavesOk(t, g)
    requires 0 <= i < |g.leaves| && 0 <= a < |g.leaves| && i != a
    ensures g.leaves[i] != g.leaves[a]
  {
    if i < a { LeafOrder(t, g, i, a); } else { LeafOrder(t, g, a, i); }
  }

  lemma LeafSplitLeafAt(t: Tree, g: Shape, p: int, g': Shape, i: int)
    requires DomOk(t, g) && NodesOk(t, g) && LeavesOk(t, g) && p in g.ht && g.ht[p] == 0
    requires 2 <= |t.pages[p].rids| == |t.pages[p].keys| && t.nextPage !in g.ht
    requires g' == SplitShape(t, g, p) && 0 <= i < |g'.leaves|
    ensures LeafAt(g', i)
  {
    var a := LeafIndex(t, g, p);
    var n := t.nextPage;
    InsertAfterAt(g.leaves, a, n, i);
    if i > 0 {
      InsertAfterAt(g.leaves, a, n, i - 1);
    }
    var i0 := if i <= a + 1 then i - 1 else i - 2;
    var i1 := if i <= a then i else i - 1;
    assert LeafAt(g, i1);
    if 0 <= i0 {
      assert LeafAt(g, i0);
      if i0 != a { LeafNowhereElse(t, g, a, i0); }
    }
    if i1 != a { LeafNowhereElse(t, g, a, i1); }
  }

  lemma LeafSplitLeaves(t: Tree, g: Shape, p: int, t': Tree, g': Shape)
    requires DomOk(t, g) && NodesOk(t, g) && LeavesOk(t, g) && p in g.ht && g.ht[p] == 0
    requires |t.pages[p].rids| == t.max == |t.pages[p].keys| && t.nextPage !in g.ht
    requires g' == SplitShape(t, g, p) && DomOk(t', g')
    ensures LeavesOk(t', g')
  {
    var a := LeafIndex(t, g, p);
    forall i | 0 <= i < |g'.leaves| ensures LeafAt(g', i) {
      LeafSplitLeafAt(t, g, p, g', i);
    }
    forall q | q in g'.ht && g'.ht[q] == 0 ensures q in g'.leaves {
      var j := if q == t.nextPage then a + 1
               else var i := LeafIndex(t, g, q); if i <= a then i else i + 1;
      InsertAfterAt(g.leaves, a, t.nextPage, j);
      assert g'.leaves[j] == q;
    }
  }

  lemma LeafSplitRingSlot(t: Tree, g: Shape, p: int, t': Tree, g': Shape, i: int)
    requires DomOk(t, g) && NodesOk(t, g) && LeavesOk(t, g) && RingOk(t, g) && p in g.ht && g.ht[p] == 0
    requires 2 <= |t.pages[p].rids| == |t.pages[p].keys| && t.pages[p].leaf
    requires LeafSplitView(t, t', p) && g' == SplitShape(t, g, p)
    requires 0 <= i < |g'.leaves|
    ensures RingSlot(t', g', i)
  {
    var a := LeafIndex(t, g, p);
    var n := t.nextPage;
    NextLeaf(t, g, p);
    InsertAfterAt(g.leaves, a, n, i);
    if i > 0 { InsertAfterAt(g.leaves, a, n, i - 1); }
    if i < |g.leaves| { InsertAfterAt(g.leaves, a, n, i + 1); }
    var i1 := if i <= a then i else i - 1;
    assert RingSlot(t, g, i1) && LeafAt(g, i1);
    if i1 != a { LeafNowhereElse(t, g, a, i1); }
    if a + 1 < |g.leaves| && i1 != a + 1 { LeafNowhereElse(t, g, a + 1, i1); }
  }

  lemma LeafSplitRing(t: Tree, g: Shape, p: int, t': Tree, g': Shape)
    requires DomOk(t, g) && NodesOk(t, g) && LeavesOk(t, g) && p in g.ht && g.ht[p] == 0
    requires |t.pages[p].rids| == t.max == |t.pages[p].keys|
    requires RingOk(t, g) && t.pages[p].leaf
    requires LeafSplitView(t, t', p) && g' == SplitShape(t, g, p) && DomOk(t', g')
    ensures RingOk(t', g')
  {
    var a := LeafIndex(t, g, p);
    var n := t.nextPage;
    forall i | 0 <= i < |g'.leaves| ensures RingSlot(t', g', i) {
      LeafSplitRingSlot(t, g, p, t', g', i);
    }
    NextLeaf(t, g, p);
    InsertAfterAt(g.leaves, a, n, 0);
    InsertAfterAt(g.leaves, a, n, |g.leaves|);
    if a != |g.leaves| - 1 { LeafNowhereElse(t, g, a, |g.leaves| - 1); }
    assert LeafAt(g, a);
    if a + 1 < |g.leaves| { assert LeafAt(g, a + 1); }
  }

  lemma LeafSplit(t: Tree, g: Shape, p: int)
    requires CanSplit(t, g, p) && g.ht[p] == 0
    ensures t.pages[p].leaf && t.pages[p].next in t.pages
    ensures Pending(SplitTree(t, p), SplitShape(t, g, p), p, t.nextPage)
  {
    assert NodeOk(t, g, p);
    NextLeaf(t, g, p);
    LeafSplitPages(t, p);
    var t', g' := SplitTree(t, p), SplitShape(t, g, p);
    LeafSplitDom(t, g, p, t', g');
    LeafSplitNodes(t, g, p, t', g');
    LeafSplitKids(t, g, p, t', g');
    LeafSplitUps(t, g, p, t', g');
    LeafSplitLeaves(t, g, p, t', g');
    LeafSplitRing(t, g, p, t', g');
  }

  // ---------------------------------------------------------------- internal split

  /** Which pages an internal split changes. */
  ghost predicate InnerSplitView(t: Tree, t': Tree, p: int) {
    && p in t.pages && |t.pages[p].keys| == |t.pages[p].rids|
    && var n := t.nextPage;
    && n !in t.pages
    && t'.pages.Keys == t.pages.Keys + {n}
    && t'.pages[n] == RightHalf(t, p)
    && t'.pages[p] == LeftHalf(t, p)
    && (forall q | q in t.pages && q != p ::
          t'.pages[q] == if Rid(q, -1) in RightHalf(t, p).rids then t.pages[q].(parent := n) else t.pages[q])
    && t' == t.(pages := t'.pages, nextPage := n + 1)
  }

  lemma MovedKid(t: Tree, g: Shape, p: int, c: int)
    requires DomOk(t, g) && KidsOk(t, g) && p in g.ht && g.ht[p] > 0 && |t.pages[p].keys| == |t.pages[p].rids|
    requires Rid(c, -1) in RightHalf(t, p).rids
    ensures c in g.ht && g.ht[c] + 1 == g.ht[p] && t.pages[c].parent == p
  {
    var rr := RightHalf(t, p).rids;
    var i :| 0 <= i < |rr| && rr[i] == Rid(c, -1);
    assert KidOk(t, g, p, SplitPos(t.pages[p]) + i);
  }

  lemma InnerSplitPages(t: Tree, g: Shape, p: int)
    requires DomOk(t, g) && KidsOk(t, g) && p in g.ht && g.ht[p] > 0 && !t.pages[p].leaf
    requires |t.pages[p].keys| == |t.pages[p].rids|
    ensures InnerSplitView(t, SplitTree(t, p), p)
  {
    var rr := RightHalf(t, p).rids;
    if Rid(p, -1) in rr {
      MovedKid(t, g, p, p);
    }
    if Rid(t.nextPage, -1) in rr {
      MovedKid(t, g, p, t.nextPage);
    }
  }

  lemma InnerSplitNodes(t: Tree, g: Shape, p: int, t': Tree, g': Shape)
    requires DomOk(t, g) && NodesOk(t, g) && SizesOk(t, g, p) && LeavesOk(t, g) && p in g.ht && g.ht[p] > 0
    requires |t.pages[p].rids| == t.max == |t.pages[p].keys|
    requires KidsOk(t, g) && KeysOk(t, g)
    requires InnerSplitView(t, t', p) && g' == SplitShape(t, g, p)
    ensures DomOk(t', g') && NodesOk(t', g') && SizesOk(t', g', NO_PAGE)
  {
    var s := SplitPos(t.pages[p]);
    assert NodeOk(t, g, p) && SizeOk(t, g, p, p);
    SeparatorInside(t, g, p);
    assert DomOk(t', g');
    forall q | q in g'.ht ensures NodeOk(t', g', q) && SizeOk(t', g', q, NO_PAGE) {
      if q != t.nextPage {
        assert NodeOk(t, g, q) && SizeOk(t, g, q, p);
      }
    }
  }

  /** The separator lies strictly inside the interval of the page being split. */
  lemma SeparatorInside(t: Tree, g: Shape, p: int)
    requires DomOk(t, g) && NodesOk(t, g) && p in g.ht && g.ht[p] > 0
    requires 4 <= |t.pages[p].rids| == |t.pages[p].keys|
    requires KidsOk(t, g) && KeysOk(t, g)
    ensures Apart(g.lo[p], At(Separator(t, p))) && Apart(At(Separator(t, p)), g.hi[p])
  {
    var n := t.pages[p];
    var s := SplitPos(n);
    KidsApart(t, g, p, 0, s);
    assert KidOk(t, g, p, 0) && KidOk(t, g, p, s) && KeyOk(t, g, p, s);
    assert NodeOk(t, g, n.rids[0].page) && NodeOk(t, g, n.rids[s].page);
    if s + 1 < |n.rids| {
      KidsApart(t, g, p, s, |n.rids| - 1);
    }
    assert KidOk(t, g, p, |n.rids| - 1) && NodeOk(t, g, n.rids[|n.rids| - 1].page);
  }

  lemma InnerSplitKid(t: Tree, g: Shape, p: int, t': Tree, g': Shape, q: int, i: int)
    requires DomOk(t, g) && LeavesOk(t, g) && KidsOk(t, g) && KeysOk(t, g) && p in g.ht && g.ht[p] > 0
    requires 4 <= |t.pages[p].rids| == |t.pages[p].keys|
    requires InnerSplitView(t, t', p) && g' == SplitShape(t, g, p) && DomOk(t', g')
    requires q in g.ht && q != p && g.ht[q] > 0 && 0 <= i < |t'.pages[q].rids|
    ensures PendKid(t', g', q, i, p, t.nextPage) && KeyOk(t', g', q, i)
  {
    assert KidOk(t, g, q, i) && KeyOk(t, g, q, i);
    var c := t.pages[q].rids[i].page;
    if Rid(c, -1) in RightHalf(t, p).rids {
      MovedKid(t, g, p, c);
    }
  }

  lemma InnerSplitLeftKid(t: Tree, g: Shape, p: int, t': Tree, g': Shape, i: int)
    requires DomOk(t, g) && NodesOk(t, g) && LeavesOk(t, g) && KidsOk(t, g) && KeysOk(t, g) && p in g.ht && g.ht[p] > 0
    requires 4 <= |t.pages[p].rids| == |t.pages[p].keys|
    requires InnerSplitView(t, t', p) && g' == SplitShape(t, g, p) && DomOk(t', g')
    requires 0 <= i < |t'.pages[p].rids|
    ensures PendKid(t', g', p, i, p, t.nextPage) && KeyOk(t', g', p, i)
  {
    var n := t.pages[p];
    var s := SplitPos(n);
    assert KidOk(t, g, p, i) && KeyOk(t, g, p, i);
    assert KidOk(t, g, p, i + 1) && KeyOk(t, g, p, i + 1);
    var c := n.rids[i].page;
    if Rid(c, -1) in n.rids[s..] {
      var j :| s <= j < |n.rids| && n.rids[j] == Rid(c, -1);
      KidsDistinct(t, g, p, i, j);
    }
  }

  lemma InnerSplitRightKid(t: Tree, g: Shape, p: int, t': Tree, g': Shape, i: int)
    requires DomOk(t, g) && LeavesOk(t, g) && KidsOk(t, g) && KeysOk(t, g) && p in g.ht && g.ht[p] > 0
    requires 4 <= |t.pages[p].rids| == |t.pages[p].keys|
    requires InnerSplitView(t, t', p) && g' == SplitShape(t, g, p) && DomOk(t', g')
    requires 0 <= i < |t'.pages[t.nextPage].rids|
    ensures PendKid(t', g', t.nextPage, i, p, t.nextPage) && KeyOk(t', g', t.nextPage, i)
  {
    var n := t.pages[p];
    var s := SplitPos(n);
    var rr := t'.pages[t.nextPage].rids;
    assert KidOk(t, g, p, s + i) && KeyOk(t, g, p, s + i);
    assert rr[i] == n.rids[s + i] && rr[i] in rr;
    if i + 1 < |rr| {
      assert rr[i + 1] == n.rids[s + i + 1];
      assert KidOk(t, g, p, s + i + 1);
    }
  }

  lemma InnerSplitKids(t: Tree, g: Shape, p: int, t': Tree, g': Shape)
    requires DomOk(t, g) && NodesOk(t, g) && LeavesOk(t, g) && KidsOk(t, g) && KeysOk(t, g) && p in g.ht && g.ht[p] > 0
    requires 4 <= |t.pages[p].rids| == |t.pages[p].keys|
    requires InnerSplitView(t, t', p) && g' == SplitShape(t, g, p) && DomOk(t', g')
    ensures PendKids(t', g', p, t.nextPage) && KeysOk(t', g')
  {
    forall q, i | q in g'.ht && g'.ht[q] > 0 && 0 <= i < |t'.pages[q].rids|
      ensures PendKid(t', g', q, i, p, t.nextPage) && KeyOk(t', g', q, i)
    {
      if q == p {
        InnerSplitLeftKid(t, g, p, t', g', i);
      } else if q == t.nextPage {
        InnerSplitRightKid(t, g, p, t', g', i);
      } else {
        InnerSplitKid(t, g, p, t', g', q, i);
      }
    }
  }

  lemma InnerSplitUps(t: Tree, g: Shape, p: int, t': Tree, g': Shape)
    requires DomOk(t, g) && UpsOk(t, g) && KidsOk(t, g) && LeavesOk(t, g) && p in g.ht && g.ht[p] > 0
    requires 4 <= |t.pages[p].rids| == |t.pages[p].keys|
    requires InnerSplitView(t, t', p) && g' == SplitShape(t, g, p) && DomOk(t', g')
    ensures PendUps(t', g', p, t.nextPage)
  {
    var n := t.pages[p];
    var s := SplitPos(n);
    assert n.rids == n.rids[..s] + n.rids[s..];
    forall q | q in g'.ht && q != t.nextPage ensures PendUp(t', g', q, p, t.nextPage) {
      assert UpOk(t, g, q);
      if Rid(q, -1) in n.rids[s..] {
        MovedKid(t, g, p, q);
      }
    }
  }

  lemma InnerSplitRing(t: Tree, g: Shape, p: int, t': Tree, g': Shape)
    requires DomOk(t, g) && LeavesOk(t, g) && RingOk(t, g) && p in g.ht && g.ht[p] > 0
    requires KidsOk(t, g)
    requires 4 <= |t.pages[p].rids| == |t.pages[p].keys|
    requires InnerSplitView(t, t', p) && g' == SplitShape(t, g, p) && DomOk(t', g')
    ensures LeavesOk(t', g') && RingOk(t', g')
  {
    forall i | 0 <= i < |g'.leaves| ensures LeafAt(g', i) && RingSlot(t', g', i) {
      assert LeafAt(g, i) && RingSlot(t, g, i);
      if i > 0 { assert LeafAt(g, i - 1); }
    }
    if Rid(LEAF_HEADER, -1) in RightHalf(t, p).rids {
      MovedKid(t, g, p, LEAF_HEADER);
    }
  }

  lemma InnerSplit(t: Tree, g: Shape, p: int)
    requires CanSplit(t, g, p) && g.ht[p] > 0
    ensures !t.pages[p].leaf
    ensures Pending(SplitTree(t, p), SplitShape(t, g, p), p, t.nextPage)
  {
    assert NodeOk(t, g, p);
    InnerSplitPages(t, g, p);
    var t', g' := SplitTree(t, p), SplitShape(t, g, p);
    InnerSplitNodes(t, g, p, t', g');
    InnerSplitKids(t, g, p, t', g');
    InnerSplitUps(t, g, p, t', g');
    InnerSplitRing(t, g, p, t', g');
  }
}
