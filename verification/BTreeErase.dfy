/** Removing one entry from a leaf.  When the entry was the minimum of a leaf off the leftmost
    spine, one boundary of the key space moves: every interval that started or ended at the
    old minimum now starts or ends at the new one. */
module BTreeErase {
  import opened BTreeState
  import opened BTreeOrder
  import opened BTreeInsert
  import opened BTreeMaintain

  function Ren(b: Bound, was: int, now: int): Bound {
    if b == At(was) then At(now) else b
  }

  ghost function Rename(g: Shape, was: int, now: int): (g': Shape)
    ensures g'.ht == g.ht && g'.leaves == g.leaves
    ensures g'.lo.Keys == g.lo.Keys && g'.hi.Keys == g.hi.Keys
    ensures forall q | q in g.lo :: g'.lo[q] == Ren(g.lo[q], was, now)
    ensures forall q | q in g.hi :: g'.hi[q] == Ren(g.hi[q], was, now)
  {
    g.(lo := map q | q in g.lo :: Ren(g.lo[q], was, now), hi := map q | q in g.hi :: Ren(g.hi[q], was, now))
  }

  lemma {:induction false} HiLeaf(t: Tree, g: Shape, x: int, q: int) returns (j: int)
    requires Frame(t, g, x) && q in g.ht
    ensures 0 <= j < |g.leaves| && g.leaves[j] in g.ht && g.hi[g.leaves[j]] == g.hi[q]
    decreases g.ht[q]
  {
    if g.ht[q] == 0 {
      j := LeafIndex(t, g, q);
    } else {
      assert SizeOk(t, g, q, x) && NodeOk(t, g, q);
      var n := |t.pages[q].rids|;
      assert KidOk(t, g, q, n - 1);
      j := HiLeaf(t, g, x, t.pages[q].rids[n - 1].page);
    }
  }

  ghost predicate MinErase(t: Tree, g: Shape, p: int, t': Tree, g': Shape) {
    && Inv(t, g, NO_PAGE) && p in g.ht && g.ht[p] == 0 && g.lo[p].At?
    && 2 <= |t.pages[p].keys| == |t.pages[p].rids|
    && t.pages[p].keys[0] == g.lo[p].k
    && t' == t.(pages := t.pages[p := ErasePair(t.pages[p], 0)])
    && g' == Rename(g, t.pages[p].keys[0], t.pages[p].keys[1])
  }

  lemma EraseApart(t: Tree, g: Shape, p: int, t': Tree, g': Shape, q: int)
    requires MinErase(t, g, p, t', g') && q in g.ht
    ensures Apart(g'.lo[q], g'.hi[q])
  {
    var was, now := t.pages[p].keys[0], t.pages[p].keys[1];
    assert NodeOk(t, g, p) && NodeOk(t, g, q);
    if g.lo[q] == At(was) && g.hi[q].At? {
      var j := HiLeaf(t, g, NO_PAGE, q);
      HiBeyond(t, g, p, j, was, now);
    }
  }

  /** A leaf that ends after `p` starts ends after every key of `p`. */
  lemma HiBeyond(t: Tree, g: Shape, p: int, j: int, was: int, now: int)
    requires DomOk(t, g) && NodesOk(t, g) && LeavesOk(t, g) && p in g.ht && g.ht[p] == 0
    requires g.lo[p] == At(was) && Above(now, g.hi[p])
    requires 0 <= j < |g.leaves| && g.leaves[j] in g.ht && Apart(At(was), g.hi[g.leaves[j]])
    ensures Above(now, g.hi[g.leaves[j]])
  {
    var a := LeafIndex(t, g, p);
    assert NodeOk(t, g, g.leaves[j]);
    if j < a {
      LeafOrder(t, g, j, a);
    } else if a < j {
      LeafOrder(t, g, a, j);
    }
  }

  lemma EraseNode(t: Tree, g: Shape, p: int, t': Tree, g': Shape, q: int)
    requires MinErase(t, g, p, t', g') && q in g.ht && DomOk(t', g')
    ensures NodeOk(t', g', q) && SizeOk(t', g', q, p)
  {
    assert NodeOk(t, g, q) && SizeOk(t, g, q, NO_PAGE);
    EraseApart(t, g, p, t', g', q);
    if g.ht[q] == 0 {
      assert NodeOk(t, g, p);
      if g.lo[q] == g.lo[p] {
        LoUnique(t, g, NO_PAGE, p, q);
      }
      EraseWithin(t, g, p, t', g', q);
    }
  }

  lemma EraseWithin(t: Tree, g: Shape, p: int, t': Tree, g': Shape, q: int)
    requires MinErase(t, g, p, t', g') && q in g.ht && g.ht[q] == 0
    requires NodeOk(t, g, p) && NodeOk(t, g, q) && (q != p ==> g.lo[q] != g.lo[p])
    ensures Within(t'.pages[q].keys, g'.lo[q], g'.hi[q])
  {
    var ks := t.pages[q].keys;
    forall i | 0 <= i < |t'.pages[q].keys|
      ensures Below(g'.lo[q], t'.pages[q].keys[i]) && Above(t'.pages[q].keys[i], g'.hi[q])
    {
      if q == p {
        assert t'.pages[q].keys[i] == ks[i + 1];
        assert ks[1] <= ks[i + 1];
      }
    }
  }

  lemma EraseKids(t: Tree, g: Shape, p: int, t': Tree, g': Shape)
    requires MinErase(t, g, p, t', g') && DomOk(t', g')
    ensures KidsOk(t', g') && Stale(t', g', 0, t.pages[p].keys[0], t.pages[p].keys[1])
  {
    var was, now := t.pages[p].keys[0], t.pages[p].keys[1];
    forall u, i | u in g'.ht && g'.ht[u] > 0 && 0 <= i < |t'.pages[u].rids|
      ensures KidOk(t', g', u, i) && StaleSlot(t', g', 0, was, now, u, i)
    {
      assert KidOk(t, g, u, i) && KeyOk(t, g, u, i);
      assert g.lo[t.pages[u].rids[i].page] != At(now) by {
        NoBoundAt(t, g, p, t.pages[u].rids[i].page, now);
      }
    }
  }

  /** No interval starts strictly inside a leaf. */
  lemma {:induction false} NoBoundAt(t: Tree, g: Shape, p: int, c: int, k: int)
    requires Inv(t, g, NO_PAGE) && p in g.ht && g.ht[p] == 0 && c in g.ht
    requires g.lo[p].At? && g.lo[p].k < k && Above(k, g.hi[p])
    ensures g.lo[c] != At(k)
    decreases g.ht[c]
  {
    if g.ht[c] == 0 {
      var i, j := LeafIndex(t, g, p), LeafIndex(t, g, c);
      assert LeafAt(g, i) && LeafAt(g, j) && NodeOk(t, g, c);
      if g.lo[c] == At(k) {
        LeafUnique(t, g, i, j, k);
      }
    } else {
      FirstKid(t, g, NO_PAGE, c);
      NoBoundAt(t, g, p, t.pages[c].rids[0].page, k);
    }
  }

  lemma EraseUps(t: Tree, g: Shape, p: int, t': Tree, g': Shape)
    requires MinErase(t, g, p, t', g') && DomOk(t', g')
    ensures UpsOk(t', g') && LeavesOk(t', g') && RingOk(t', g')
  {
    forall q | q in g'.ht ensures UpOk(t', g', q) {
      assert UpOk(t, g, q) && NodeOk(t, g, p);
    }
    forall i | 0 <= i < |g'.leaves| ensures LeafAt(g', i) && RingSlot(t', g', i) {
      assert LeafAt(g, i) && RingSlot(t, g, i);
    }
  }

  /** Removing the minimum of a leaf leaves only the separators above it to repair. */
  lemma EraseMinInv(t: Tree, g: Shape, p: int, t': Tree, g': Shape)
    requires MinErase(t, g, p, t', g')
    ensures Climbing(t', g', p, p, t.pages[p].keys[0])
  {
    assert DomOk(t', g');
    forall q | q in g'.ht ensures NodeOk(t', g', q) && SizeOk(t', g', q, p) {
      EraseNode(t, g, p, t', g', q);
    }
    EraseKids(t, g, p, t', g');
    EraseUps(t, g, p, t', g');
    assert NodeOk(t, g, p);
  }

  lemma EraseOtherNode(t: Tree, g: Shape, p: int, pos: int, t': Tree)
    requires DomOk(t, g) && p in g.ht && g.ht[p] == 0 && NodeOk(t, g, p) && SizeOk(t, g, p, NO_PAGE)
    requires 0 <= pos < |t.pages[p].keys| && (g.lo[p].At? ==> pos > 0)
    requires t' == t.(pages := t.pages[p := ErasePair(t.pages[p], pos)])
    ensures DomOk(t', g) && NodeOk(t', g, p) && SizeOk(t', g, p, p)
  {
    var n, n' := t.pages[p], t'.pages[p];
    assert forall i | 0 <= i < |n'.keys| :: n'.keys[i] == n.keys[if i < pos then i else i + 1];
  }

  /** Removing any other entry keeps every interval. */
  lemma EraseOtherInv(t: Tree, g: Shape, p: int, pos: int, t': Tree)
    requires Inv(t, g, NO_PAGE) && p in g.ht && g.ht[p] == 0
    requires 0 <= pos < |t.pages[p].keys| == |t.pages[p].rids| && (g.lo[p].At? ==> pos > 0)
    requires t' == t.(pages := t.pages[p := ErasePair(t.pages[p], pos)])
    ensures Inv(t', g, p)
  {
    assert NodeOk(t, g, p) && SizeOk(t, g, p, NO_PAGE);
    EraseOtherNode(t, g, p, pos, t');
    LeafRewrite(t, g, p, t'.pages[p], t', NO_PAGE);
  }
}
