/** Linking a freshly split page into its parent, or under a new root. */
module BTreeLink {
  import opened Rids
  import opened BTreeState
  import opened BTreeInsert
  import opened BTreeSplit

  /** Slot `i + 1` of the parent of `p` becomes the new page `n`. */
  function LinkBelow(t: Tree, p: int, n: int, i: int): (t': Tree)
    requires p in t.pages && n in t.pages && t.pages[p].parent in t.pages && |t.pages[n].keys| > 0
    requires t.pages[p].parent != n
    requires 0 <= i < |t.pages[t.pages[p].parent].keys| == |t.pages[t.pages[p].parent].rids|
  {
    var q := t.pages[p].parent;
    t.(pages := t.pages[q := InsertPair(t.pages[q], i + 1, t.pages[n].keys[0], Rid(n, -1))]
                       [n := t.pages[n].(parent := q)])
  }

  /** A new root above `p` and `n`. */
  function LinkRoot(t: Tree, p: int, n: int): (t': Tree)
    requires p in t.pages && n in t.pages && |t.pages[n].keys| > 0 && |t.pages[p].keys| > 0
  {
    var r := t.nextPage;
    t.(pages := t.pages[r := Node([t.pages[p].keys[0], t.pages[n].keys[0]], [Rid(p, -1), Rid(n, -1)],
                                  NO_PAGE, false, NO_PAGE, NO_PAGE)]
                       [p := t.pages[p].(parent := r)][n := t.pages[n].(parent := r)],
       root := r, nextPage := r + 1)
  }

  ghost function RootShape(t: Tree, g: Shape, p: int): (g': Shape)
    requires p in g.ht
  {
    var r := t.nextPage;
    g.(ht := g.ht[r := g.ht[p] + 1], lo := g.lo[r := Inf], hi := g.hi[r := Inf])
  }

  // ---------------------------------------------------------------- below an existing parent

  ghost predicate IsLinkBelow(t: Tree, g: Shape, p: int, n: int, i: int, t': Tree) {
    && Pending(t, g, p, n) && p != t.root
    && t.pages[p].parent in g.ht && g.ht[t.pages[p].parent] == g.ht[p] + 1
    && |t.pages[t.pages[p].parent].keys| == |t.pages[t.pages[p].parent].rids|
    && 0 <= i < |t.pages[t.pages[p].parent].rids|
    && t.pages[t.pages[p].parent].rids[i] == Rid(p, -1)
    && t' == LinkBelow(t, p, n, i)
  }

  lemma LinkSlot(s: seq<Rid>, i: int, r: Rid, j: int)
    requires 0 <= i < |s| && 0 <= j <= |s|
    ensures (s[..i + 1] + [r] + s[i + 1..])[j] == if j <= i then s[j] else if j == i + 1 then r else s[j - 1]
  {
  }

  lemma LinkNodes(t: Tree, g: Shape, p: int, n: int, i: int, t': Tree)
    requires IsLinkBelow(t, g, p, n, i, t')
    ensures DomOk(t', g) && NodesOk(t', g) && SizesOk(t', g, t.pages[p].parent)
  {
    forall u | u in g.ht ensures NodeOk(t', g, u) && SizeOk(t', g, u, t.pages[p].parent) {
      assert NodeOk(t, g, u) && SizeOk(t, g, u, NO_PAGE);
    }
  }

  lemma LinkKidOther(t: Tree, g: Shape, p: int, n: int, i: int, t': Tree, u: int, j: int)
    requires IsLinkBelow(t, g, p, n, i, t') && DomOk(t', g)
    requires u in g.ht && u != t.pages[p].parent && g.ht[u] > 0 && 0 <= j < |t'.pages[u].rids|
    ensures KidOk(t', g, u, j) && KeyOk(t', g, u, j)
  {
    assert NodeOk(t, g, p);
    assert PendKid(t, g, u, j, p, n) && KeyOk(t, g, u, j);
  }

  lemma LinkKidSame(t: Tree, g: Shape, p: int, n: int, i: int, t': Tree, j: int)
    requires IsLinkBelow(t, g, p, n, i, t') && DomOk(t', g)
    requires 0 <= j < |t'.pages[t.pages[p].parent].rids|
    ensures KidOk(t', g, t.pages[p].parent, j) && KeyOk(t', g, t.pages[p].parent, j)
  {
    var q := t.pages[p].parent;
    var j0 := if j <= i then j else j - 1;
    PendSlot(t, g, p, n, q, i, j0);
    LinkSlot(t.pages[q].rids, i, Rid(n, -1), j);
    if j < |t.pages[q].rids| {
      LinkSlot(t.pages[q].rids, i, Rid(n, -1), j + 1);
    }
    var keys := t.pages[q].keys;
    assert t'.pages[q].keys[j] == if j <= i then keys[j] else if j == i + 1 then t.pages[n].keys[0] else keys[j - 1];
  }

  /** In the pending state only slot `i` of the parent ends where `n` ends. */
  lemma PendSlot(t: Tree, g: Shape, p: int, n: int, q: int, i: int, j: int)
    requires DomOk(t, g) && p in g.ht && n in g.ht && PendKids(t, g, p, n) && KeysOk(t, g)
    requires NodesOk(t, g) && g.hi[p] == g.lo[n] && g.lo[n].At? && n != p
    requires q in g.ht && g.ht[q] == g.ht[p] + 1
    requires 0 <= i < |t.pages[q].rids| && t.pages[q].rids[i] == Rid(p, -1)
    requires 0 <= j < |t.pages[q].rids|
    ensures KidBase(t, g, q, j) && KeyOk(t, g, q, j)
    ensures j == i ==> KidHi(t, g, q, j, g.hi[n])
    ensures j != i ==> KidHi(t, g, q, j, g.hi[t.pages[q].rids[j].page]) && t.pages[q].rids[j].page != p
  {
    assert PendKid(t, g, q, j, p, n) && KeyOk(t, g, q, j);
    if j != i {
      PendDistinct(t, g, p, n, q, if i < j then i else j, if i < j then j else i);
    }
  }

  lemma {:induction false} PendApart(t: Tree, g: Shape, p: int, n: int, q: int, i: int, j: int)
    requires DomOk(t, g) && p in g.ht && n in g.ht && PendKids(t, g, p, n) && NodesOk(t, g)
    requires g.hi[p] == g.lo[n] && g.lo[n].At?
    requires q in g.ht && g.ht[q] > 0 && 0 <= i < j < |t.pages[q].rids|
    ensures t.pages[q].rids[i].page in g.ht && t.pages[q].rids[j].page in g.ht
    ensures g.lo[t.pages[q].rids[j].page].At?
    ensures Apart(g.lo[t.pages[q].rids[i].page], g.lo[t.pages[q].rids[j].page])
    decreases j - i
  {
    assert PendKid(t, g, q, i, p, n) && PendKid(t, g, q, i + 1, p, n);
    assert NodeOk(t, g, t.pages[q].rids[i].page) && NodeOk(t, g, n);
    if i + 1 < j {
      PendApart(t, g, p, n, q, i + 1, j);
    }
  }

  lemma PendDistinct(t: Tree, g: Shape, p: int, n: int, q: int, i: int, j: int)
    requires DomOk(t, g) && p in g.ht && n in g.ht && PendKids(t, g, p, n) && NodesOk(t, g)
    requires g.hi[p] == g.lo[n] && g.lo[n].At?
    requires q in g.ht && g.ht[q] > 0 && 0 <= i < j < |t.pages[q].rids|
    ensures t.pages[q].rids[i].page != t.pages[q].rids[j].page
  {
    PendApart(t, g, p, n, q, i, j);
  }

  lemma LinkKids(t: Tree, g: Shape, p: int, n: int, i: int, t': Tree)
    requires IsLinkBelow(t, g, p, n, i, t') && DomOk(t', g)
    ensures KidsOk(t', g) && KeysOk(t', g)
  {
    forall u, j | u in g.ht && g.ht[u] > 0 && 0 <= j < |t'.pages[u].rids|
      ensures KidOk(t', g, u, j) && KeyOk(t', g, u, j)
    {
      if u == t.pages[p].parent {
        LinkKidSame(t, g, p, n, i, t', j);
      } else {
        LinkKidOther(t, g, p, n, i, t', u, j);
      }
    }
  }

  lemma LinkUps(t: Tree, g: Shape, p: int, n: int, i: int, t': Tree)
    requires IsLinkBelow(t, g, p, n, i, t') && DomOk(t', g)
    ensures UpsOk(t', g)
  {
    var q := t.pages[p].parent;
    var s := t.pages[q].rids;
    assert s == s[..i + 1] + s[i + 1..];
    forall u | u in g.ht ensures UpOk(t', g, u) {
      if u != n {
        assert PendUp(t, g, u, p, n);
      }
    }
  }

  lemma LinkRing(t: Tree, g: Shape, p: int, n: int, i: int, t': Tree)
    requires IsLinkBelow(t, g, p, n, i, t') && DomOk(t', g)
    ensures LeavesOk(t', g) && RingOk(t', g)
  {
    forall j | 0 <= j < |g.leaves| ensures RingSlot(t', g, j) {
      assert RingSlot(t, g, j) && LeafAt(g, j);
    }
  }

  /** The parent now knows `n`; only its size may be one too many. */
  lemma LinkBelowInv(t: Tree, g: Shape, p: int, n: int, i: int, t': Tree)
    requires IsLinkBelow(t, g, p, n, i, t')
    ensures Inv(t', g, t.pages[p].parent)
  {
    LinkNodes(t, g, p, n, i, t');
    LinkKids(t, g, p, n, i, t');
    LinkUps(t, g, p, n, i, t');
    LinkRing(t, g, p, n, i, t');
  }

  // ---------------------------------------------------------------- a new root

  ghost predicate IsLinkRoot(t: Tree, g: Shape, p: int, n: int, t': Tree, g': Shape) {
    && Pending(t, g, p, n) && p == t.root
    && t' == LinkRoot(t, p, n) && g' == RootShape(t, g, p)
  }

  lemma RootNodes(t: Tree, g: Shape, p: int, n: int, t': Tree, g': Shape)
    requires IsLinkRoot(t, g, p, n, t', g')
    ensures DomOk(t', g') && NodesOk(t', g') && SizesOk(t', g', NO_PAGE)
  {
    assert DomOk(t', g');
    forall u | u in g'.ht ensures NodeOk(t', g', u) && SizeOk(t', g', u, NO_PAGE) {
      if u != t.nextPage {
        assert NodeOk(t, g, u) && SizeOk(t, g, u, NO_PAGE);
      }
    }
  }

  lemma RootKids(t: Tree, g: Shape, p: int, n: int, t': Tree, g': Shape)
    requires IsLinkRoot(t, g, p, n, t', g') && DomOk(t', g')
    ensures KidsOk(t', g') && KeysOk(t', g')
  {
    assert PendUp(t, g, p, p, n);
    forall u, j | u in g'.ht && g'.ht[u] > 0 && 0 <= j < |t'.pages[u].rids|
      ensures KidOk(t', g', u, j) && KeyOk(t', g', u, j)
    {
      if u != t.nextPage {
        assert PendKid(t, g, u, j, p, n) && KeyOk(t, g, u, j);
      }
    }
  }

  lemma RootUps(t: Tree, g: Shape, p: int, n: int, t': Tree, g': Shape)
    requires IsLinkRoot(t, g, p, n, t', g') && DomOk(t', g')
    ensures UpsOk(t', g')
  {
    var r := t'.pages[t.nextPage];
    assert r.rids[0] == Rid(p, -1) && r.rids[1] == Rid(n, -1);
    forall u | u in g'.ht ensures UpOk(t', g', u) {
      if u != n && u != t.nextPage {
        assert PendUp(t, g, u, p, n);
      }
    }
  }

  lemma RootRing(t: Tree, g: Shape, p: int, n: int, t': Tree, g': Shape)
    requires IsLinkRoot(t, g, p, n, t', g') && DomOk(t', g')
    ensures LeavesOk(t', g') && RingOk(t', g')
  {
    forall j | 0 <= j < |g'.leaves| ensures RingSlot(t', g', j) && LeafAt(g', j) {
      assert RingSlot(t, g, j) && LeafAt(g, j);
      if j > 0 { assert LeafAt(g, j - 1); }
    }
  }

  lemma LinkRootInv(t: Tree, g: Shape, p: int, n: int, t': Tree, g': Shape)
    requires IsLinkRoot(t, g, p, n, t', g')
    ensures Inv(t', g', NO_PAGE)
  {
    RootNodes(t, g, p, n, t', g');
    RootKids(t, g, p, n, t', g');
    RootUps(t, g, p, n, t', g');
    RootRing(t, g, p, n, t', g');
  }
}
