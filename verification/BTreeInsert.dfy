/** Insertion: the effect of one leaf insert and of one split, on the page map. */
module BTreeInsert {
  import opened Rids
  import opened BTreeState

  function InsertPair(n: Node, pos: int, k: int, r: Rid): (m: Node)
    requires 0 <= pos <= |n.keys| == |n.rids|
  {
    n.(keys := n.keys[..pos] + [k] + n.keys[pos..], rids := n.rids[..pos] + [r] + n.rids[pos..])
  }

  function ErasePair(n: Node, pos: int): (m: Node)
    requires 0 <= pos < |n.keys| == |n.rids|
  {
    n.(keys := n.keys[..pos] + n.keys[pos + 1..], rids := n.rids[..pos] + n.rids[pos + 1..])
  }

  ghost predicate SameLinks(m: Node, n: Node) {
    m.parent == n.parent && m.leaf == n.leaf && m.prev == n.prev && m.next == n.next
  }

  lemma LeafRewriteKids(t: Tree, g: Shape, p: int, n: Node, t': Tree)
    requires DomOk(t, g) && KidsOk(t, g) && KeysOk(t, g) && DomOk(t', g)
    requires p in g.ht && g.ht[p] == 0 && n.parent == t.pages[p].parent
    requires t'.pages == t.pages[p := n]
    ensures KidsOk(t', g) && KeysOk(t', g)
  {
    forall q, i | q in g.ht && g.ht[q] > 0 && 0 <= i < |t'.pages[q].rids|
      ensures KidOk(t', g, q, i) && KeyOk(t', g, q, i)
    {
      assert KidOk(t, g, q, i) && KeyOk(t, g, q, i);
    }
  }

  lemma LeafRewriteUps(t: Tree, g: Shape, p: int, n: Node, t': Tree)
    requires DomOk(t, g) && UpsOk(t, g) && DomOk(t', g)
    requires p in g.ht && g.ht[p] == 0 && n.parent == t.pages[p].parent
    requires t' == t.(pages := t.pages[p := n])
    ensures UpsOk(t', g)
  {
    forall q | q in g.ht ensures UpOk(t', g, q) {
      assert UpOk(t, g, q);
    }
  }

  lemma LeafRewriteRing(t: Tree, g: Shape, p: int, n: Node, t': Tree)
    requires DomOk(t, g) && LeavesOk(t, g) && RingOk(t, g) && DomOk(t', g)
    requires p in g.ht && g.ht[p] == 0 && SameLinks(n, t.pages[p])
    requires t' == t.(pages := t.pages[p := n])
    ensures LeavesOk(t', g) && RingOk(t', g)
  {
    forall i | 0 <= i < |g.leaves| ensures RingSlot(t', g, i) {
      assert RingSlot(t, g, i) && LeafAt(g, i);
    }
  }

  lemma LeafRewriteNodes(t: Tree, g: Shape, p: int, n: Node, t': Tree, x: int)
    requires DomOk(t, g) && NodesOk(t, g) && SizesOk(t, g, x) && DomOk(t', g)
    requires p in g.ht && t' == t.(pages := t.pages[p := n])
    requires NodeOk(t', g, p) && SizeOk(t', g, p, p)
    requires x == NO_PAGE || x == p
    ensures NodesOk(t', g) && SizesOk(t', g, p)
  {
    forall q | q in g.ht ensures NodeOk(t', g, q) && SizeOk(t', g, q, p) {
      assert NodeOk(t, g, q) && SizeOk(t, g, q, x);
    }
  }

  /** Rewriting the entries of one leaf keeps every clause about other pages. */
  lemma LeafRewrite(t: Tree, g: Shape, p: int, n: Node, t': Tree, x: int)
    requires Inv(t, g, x) && (x == NO_PAGE || x == p)
    requires p in g.ht && g.ht[p] == 0
    requires SameLinks(n, t.pages[p])
    requires t' == t.(pages := t.pages[p := n])
    requires DomOk(t', g) && NodeOk(t', g, p) && SizeOk(t', g, p, p)
    ensures Inv(t', g, p)
  {
    LeafRewriteKids(t, g, p, n, t');
    LeafRewriteUps(t, g, p, n, t');
    LeafRewriteRing(t, g, p, n, t');
    LeafRewriteNodes(t, g, p, n, t', x);
  }

  /** The slot a key goes to in a sorted array. */
  ghost predicate IsLowerBound(s: seq<int>, k: int, pos: int) {
    && 0 <= pos <= |s|
    && (forall i | 0 <= i < pos :: s[i] < k)
    && (forall i | pos <= i < |s| :: k <= s[i])
  }

  lemma InsertSorted(s: seq<int>, k: int, pos: int)
    requires Sorted(s) && IsLowerBound(s, k, pos) && (pos < |s| ==> s[pos] != k)
    ensures Sorted(s[..pos] + [k] + s[pos..])
  {
    var s' := s[..pos] + [k] + s[pos..];
    forall i, j | 0 <= i < j < |s'| ensures s'[i] < s'[j] {
      assert pos < |s| ==> k < s[pos];
    }
  }

  lemma LeafInsertNode(t: Tree, g: Shape, p: int, pos: int, k: int, r: Rid, t': Tree)
    requires DomOk(t, g) && p in g.ht && g.ht[p] == 0 && NodeOk(t, g, p) && SizeOk(t, g, p, NO_PAGE)
    requires Below(g.lo[p], k) && Above(k, g.hi[p])
    requires IsLowerBound(t.pages[p].keys, k, pos)
    requires pos < |t.pages[p].keys| ==> t.pages[p].keys[pos] != k
    requires t' == t.(pages := t.pages[p := InsertPair(t.pages[p], pos, k, r)])
    ensures DomOk(t', g) && NodeOk(t', g, p) && SizeOk(t', g, p, p)
  {
    var n := t.pages[p];
    var n' := InsertPair(n, pos, k, r);
    InsertSorted(n.keys, k, pos);
    assert forall i | 0 <= i < |n'.keys| :: n'.keys[i] == k || n'.keys[i] in n.keys;
    assert Within(n'.keys, g.lo[p], g.hi[p]);
    assert g.lo[p].At? ==> pos > 0;
  }

  /** Adding a key that the leaf does not hold. */
  lemma LeafInsert(t: Tree, g: Shape, p: int, pos: int, k: int, r: Rid, t': Tree)
    requires Inv(t, g, NO_PAGE)
    requires p in g.ht && g.ht[p] == 0
    requires Below(g.lo[p], k) && Above(k, g.hi[p])
    requires |t.pages[p].keys| == |t.pages[p].rids|
    requires IsLowerBound(t.pages[p].keys, k, pos)
    requires pos < |t.pages[p].keys| ==> t.pages[p].keys[pos] != k
    requires t' == t.(pages := t.pages[p := InsertPair(t.pages[p], pos, k, r)])
    ensures Inv(t', g, p)
  {
    assert NodeOk(t, g, p) && SizeOk(t, g, p, NO_PAGE);
    LeafInsertNode(t, g, p, pos, k, r, t');
    LeafRewrite(t, g, p, t'.pages[p], t', NO_PAGE);
  }
}
