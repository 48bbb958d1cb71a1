/** Structural steps keep the list of entries. */
module BTreeKeep {
  import opened BTreeState
  import opened BTreeOrder
  import opened BTreeSplit
  import opened BTreeLink
  import opened BTreeRebalance
  import opened BTreeMerge
  import opened BTreeContents

  ghost predicate SameEntries(t: Tree, t': Tree, p: int) {
    p in t.pages && p in t'.pages && t'.pages[p].keys == t.pages[p].keys && t'.pages[p].rids == t.pages[p].rids
  }

  /** A step that leaves the entries of every leaf alone. */
  lemma KeepFlat(t: Tree, g: Shape, t': Tree)
    requires DomOk(t, g) && LeavesOk(t, g)
    requires forall p | p in g.ht && g.ht[p] == 0 :: SameEntries(t, t', p)
    ensures Flat(t'.pages, g.leaves) == Flat(t.pages, g.leaves)
  {
    forall i | 0 <= i < |g.leaves| ensures SameEntries(t, t', g.leaves[i]) {
      assert LeafAt(g, i);
    }
    FlatFrame(t.pages, t'.pages, g.leaves);
  }

  lemma KeepInnerSplit(t: Tree, g: Shape, p: int)
    requires DomOk(t, g) && LeavesOk(t, g) && KidsOk(t, g) && p in g.ht && g.ht[p] > 0 && !t.pages[p].leaf
    requires 2 <= |t.pages[p].keys| == |t.pages[p].rids|
    ensures Flat(SplitTree(t, p).pages, SplitShape(t, g, p).leaves) == Flat(t.pages, g.leaves)
  {
    InnerSplitPages(t, g, p);
    KeepFlat(t, g, SplitTree(t, p));
  }

  lemma KeepLinkBelow(t: Tree, g: Shape, p: int, n: int, i: int, t': Tree)
    requires IsLinkBelow(t, g, p, n, i, t')
    ensures Flat(t'.pages, g.leaves) == Flat(t.pages, g.leaves)
  {
    KeepFlat(t, g, t');
  }

  lemma KeepLinkRoot(t: Tree, g: Shape, p: int, n: int, t': Tree, g': Shape)
    requires IsLinkRoot(t, g, p, n, t', g')
    ensures Flat(t'.pages, g'.leaves) == Flat(t.pages, g.leaves)
  {
    KeepFlat(t, g, t');
  }

  lemma KeepCollapse(t: Tree, g: Shape)
    requires DomOk(t, g) && LeavesOk(t, g) && |t.pages[t.root].rids| > 0
    requires t.pages[t.root].rids[0].page in t.pages
    ensures Flat(Collapse(t).pages, CollapseShape(t, g).leaves) == Flat(t.pages, g.leaves)
  {
    KeepFlat(t, g, Collapse(t));
  }

  /** Two neighbouring leaves in the middle of the list. */
  lemma FlatPair(pages: map<int, Node>, a: seq<int>, l: int, r: int, b: seq<int>)
    requires l in pages && r in pages
    ensures Flat(pages, a + [l, r] + b) == Flat(pages, a) + (Entries(pages[l]) + Entries(pages[r])) + Flat(pages, b)
  {
    FlatJoin(pages, a + [l, r], b);
    FlatJoin(pages, a, [l, r]);
    assert [l, r][1..] == [r] && [r][1..] == [];
    assert Flat(pages, [r]) == Entries(pages[r]) + Flat(pages, []);
    assert Flat(pages, [l, r]) == Entries(pages[l]) + Entries(pages[r]);
  }

  lemma FlatOne(pages: map<int, Node>, a: seq<int>, l: int, b: seq<int>)
    requires l in pages
    ensures Flat(pages, a + [l] + b) == Flat(pages, a) + Entries(pages[l]) + Flat(pages, b)
  {
    FlatJoin(pages, a + [l], b);
    FlatJoin(pages, a, [l]);
    assert [l][1..] == [];
  }

  lemma EntriesCut(n: Node, s: int)
    requires |n.keys| == |n.rids| && 0 <= s <= |n.keys|
    ensures Entries(n) == Entries(n.(keys := n.keys[..s], rids := n.rids[..s]))
                          + Entries(n.(keys := n.keys[s..], rids := n.rids[s..]))
  {
  }

  lemma EntriesOf(m: Node, n: Node)
    requires m.keys == n.keys && m.rids == n.rids
    ensures Entries(m) == Entries(n)
  {
  }

  lemma EntriesPair(l: Node, r: Node, l': Node, r': Node)
    requires |l.keys| == |l.rids| && |r.keys| == |r.rids| && |l'.keys| == |l'.rids| && |r'.keys| == |r'.rids|
    requires l'.keys + r'.keys == l.keys + r.keys && l'.rids + r'.rids == l.rids + r.rids
    ensures Entries(l') + Entries(r') == Entries(l) + Entries(r)
  {
    var n := l.(keys := l.keys + r.keys, rids := l.rids + r.rids);
    EntriesCut(n, |l.keys|);
    EntriesCut(n, |l'.keys|);
    assert n.keys[..|l.keys|] == l.keys && n.rids[..|l.keys|] == l.rids;
    assert n.keys[|l.keys|..] == r.keys && n.rids[|l.keys|..] == r.rids;
    assert n.keys[..|l'.keys|] == l'.keys && n.rids[..|l'.keys|] == l'.rids;
    assert n.keys[|l'.keys|..] == r'.keys && n.rids[|l'.keys|..] == r'.rids;
    EntriesOf(n.(keys := l.keys, rids := l.rids), l);
    EntriesOf(n.(keys := r.keys, rids := r.rids), r);
    EntriesOf(n.(keys := l'.keys, rids := l'.rids), l');
    EntriesOf(n.(keys := r'.keys, rids := r'.rids), r');
  }

  /** The leaves before and after position `i` keep their entries if only `l` and `r` change. */
  lemma KeepSides(t: Tree, g: Shape, t': Tree, l: int, r: int, i: int, a: int, b: int)
    requires DomOk(t, g) && NodesOk(t, g) && LeavesOk(t, g)
    requires forall p | p in g.ht && g.ht[p] == 0 && p != l && p != r :: SameEntries(t, t', p)
    requires 0 <= i < |g.leaves| && g.leaves[i] == l && (r in g.ht ==> i + 1 < |g.leaves| && g.leaves[i + 1] == r)
    requires 0 <= a <= b <= |g.leaves| && (b <= i || i + (if r in g.ht then 2 else 1) <= a)
    ensures Flat(t'.pages, g.leaves[a..b]) == Flat(t.pages, g.leaves[a..b])
  {
    var ls := g.leaves[a..b];
    forall j | 0 <= j < |ls| ensures SameEntries(t, t', ls[j]) {
      assert LeafAt(g, a + j);
      LeafElse(t, g, i, a + j);
      if r in g.ht { LeafElse(t, g, i + 1, a + j); }
    }
    FlatFrame(t.pages, t'.pages, ls);
  }

  lemma KeepLeafSplit(t: Tree, g: Shape, p: int)
    requires CanSplit(t, g, p) && g.ht[p] == 0 && t.pages[p].leaf && t.pages[p].next in t.pages
    requires LeafSplitView(t, SplitTree(t, p), p)
    ensures Flat(SplitTree(t, p).pages, SplitShape(t, g, p).leaves) == Flat(t.pages, g.leaves)
  {
    var t', n, i := SplitTree(t, p), t.nextPage, LeafIndex(t, g, p);
    var a, b := g.leaves[..i], g.leaves[i + 1..];
    assert g.leaves == a + [p] + b;
    FlatOne(t.pages, a, p, b);
    assert SplitShape(t, g, p).leaves == a + [p, n] + b;
    FlatPair(t'.pages, a, p, n, b);
    SplitEntries(t, p);
    SplitSides(t, g, p, i);
  }

  lemma SplitEntries(t: Tree, p: int)
    requires p in t.pages && |t.pages[p].keys| == |t.pages[p].rids|
    ensures Entries(LeftHalf(t, p)) + Entries(RightHalf(t, p)) == Entries(t.pages[p])
  {
    var m := t.pages[p];
    var s := SplitPos(m);
    EntriesCut(m, s);
    EntriesOf(m.(keys := m.keys[..s], rids := m.rids[..s]), LeftHalf(t, p));
    EntriesOf(m.(keys := m.keys[s..], rids := m.rids[s..]), RightHalf(t, p));
  }

  lemma SplitSides(t: Tree, g: Shape, p: int, i: int)
    requires CanSplit(t, g, p) && g.ht[p] == 0 && t.pages[p].leaf && t.pages[p].next in t.pages
    requires LeafSplitView(t, SplitTree(t, p), p) && i == LeafIndex(t, g, p)
    ensures Flat(SplitTree(t, p).pages, g.leaves[..i]) == Flat(t.pages, g.leaves[..i])
    ensures Flat(SplitTree(t, p).pages, g.leaves[i + 1..]) == Flat(t.pages, g.leaves[i + 1..])
  {
    var t' := SplitTree(t, p);
    forall u | u in g.ht && g.ht[u] == 0 && u != p ensures SameEntries(t, t', u) {
    }
    assert t.nextPage !in g.ht;
    KeepSides(t, g, t', p, t.nextPage, i, 0, i);
    KeepSides(t, g, t', p, t.nextPage, i, i + 1, |g.leaves|);
    assert g.leaves[0..i] == g.leaves[..i] && g.leaves[i + 1..|g.leaves|] == g.leaves[i + 1..];
  }

  lemma KeepDealInner(t: Tree, g: Shape, x: int, q: int, a: int, l: int, r: int, nl: Node, nr: Node, t': Tree,
                      g': Shape)
    requires Deal(t, g, x, q, a, l, r, nl, nr, t', g') && g.ht[l] > 0
    ensures Flat(t'.pages, g'.leaves) == Flat(t.pages, g.leaves)
  {
    forall p | p in g.ht && g.ht[p] == 0 ensures SameEntries(t, t', p) {
      DealPage(t, g, q, a, l, r, nl, nr, t', p);
    }
    KeepFlat(t, g, t');
  }

  lemma KeepDealLeaf(t: Tree, g: Shape, x: int, q: int, a: int, l: int, r: int, nl: Node, nr: Node, t': Tree, g': Shape)
    requires Deal(t, g, x, q, a, l, r, nl, nr, t', g') && g.ht[l] == 0
    ensures Flat(t'.pages, g'.leaves) == Flat(t.pages, g.leaves)
  {
    MergeLeafIndex(t, g, l, r);
    var i := LeafIndex(t, g, l);
    var b, c := g.leaves[..i], g.leaves[i + 2..];
    CutPair(g.leaves, i, l, r);
    FlatPair(t.pages, b, l, r, c);
    FlatPair(t'.pages, b, l, r, c);
    EntriesPair(t.pages[l], t.pages[r], nl, nr);
    forall p | p in g.ht && g.ht[p] == 0 && p != l && p != r ensures SameEntries(t, t', p) {
      DealPage(t, g, q, a, l, r, nl, nr, t', p);
    }
    PairSides(t, g, t', l, r, i);
  }

  lemma PairSides(t: Tree, g: Shape, t': Tree, l: int, r: int, i: int)
    requires DomOk(t, g) && NodesOk(t, g) && LeavesOk(t, g)
    requires forall p | p in g.ht && g.ht[p] == 0 && p != l && p != r :: SameEntries(t, t', p)
    requires 0 <= i && i + 1 < |g.leaves| && g.leaves[i] == l && g.leaves[i + 1] == r
    ensures Flat(t'.pages, g.leaves[..i]) == Flat(t.pages, g.leaves[..i])
    ensures Flat(t'.pages, g.leaves[i + 2..]) == Flat(t.pages, g.leaves[i + 2..])
  {
    assert LeafAt(g, i + 1);
    KeepSides(t, g, t', l, r, i, 0, i);
    KeepSides(t, g, t', l, r, i, i + 2, |g.leaves|);
    assert g.leaves[0..i] == g.leaves[..i] && g.leaves[i + 2..|g.leaves|] == g.leaves[i + 2..];
  }

  lemma CutPair(ls: seq<int>, i: int, l: int, r: int)
    requires 0 <= i && i + 1 < |ls| && ls[i] == l && ls[i + 1] == r
    ensures ls == ls[..i] + [l, r] + ls[i + 2..]
    ensures RemoveAt(ls, i + 1) == ls[..i] + [l] + ls[i + 2..]
  {
  }

  lemma KeepMergeInner(t: Tree, g: Shape, x: int, q: int, a: int, l: int, r: int, t': Tree, g': Shape)
    requires Merge(t, g, x, q, a, l, r, t', g') && g.ht[l] > 0
    ensures Flat(t'.pages, g'.leaves) == Flat(t.pages, g.leaves)
  {
    forall p | p in g.ht && g.ht[p] == 0 ensures SameEntries(t, t', p) {
      MergePage(t, t', q, a, l, r, p);
    }
    KeepFlat(t, g, t');
  }

  lemma KeepMergeLeaf(t: Tree, g: Shape, x: int, q: int, a: int, l: int, r: int, t': Tree, g': Shape)
    requires Merge(t, g, x, q, a, l, r, t', g') && g.ht[l] == 0
    ensures Flat(t'.pages, g'.leaves) == Flat(t.pages, g.leaves)
  {
    MergeLeafIndex(t, g, l, r);
    var i := LeafIndex(t, g, l);
    var b, c := g.leaves[..i], g.leaves[i + 2..];
    CutPair(g.leaves, i, l, r);
    FlatPair(t.pages, b, l, r, c);
    FlatOne(t'.pages, b, l, c);
    MergeEntries(t, l, r, t'.pages[l]);
    forall p | p in g.ht && g.ht[p] == 0 && p != l && p != r ensures SameEntries(t, t', p) {
      MergePage(t, t', q, a, l, r, p);
    }
    PairSides(t, g, t', l, r, i);
  }

  lemma MergeEntries(t: Tree, l: int, r: int, n: Node)
    requires l in t.pages && r in t.pages && n.keys == RowKeys(t, l, r) && n.rids == Row(t, l, r)
    requires |t.pages[l].keys| == |t.pages[l].rids| && |t.pages[r].keys| == |t.pages[r].rids|
    ensures Entries(n) == Entries(t.pages[l]) + Entries(t.pages[r])
  {
    var e := n.(keys := [], rids := []);
    assert n.keys + e.keys == n.keys && n.rids + e.rids == n.rids;
    EntriesPair(t.pages[l], t.pages[r], n, e);
    assert Entries(n) + Entries(e) == Entries(n);
  }
}
