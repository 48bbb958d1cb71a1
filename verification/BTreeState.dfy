/** The state of one B+ tree index file and the invariant every reachable state keeps.

    A page is a value of `Node`.  Keys are integers: `KeyOrder` shows that the composite
    key order of the index is the integer order of a numeric code of the key.

    The invariant is local.  Every live page `p` carries, in a ghost `Shape`, its height
    `ht[p]` and the key interval `[lo[p], hi[p])` it answers for; an infinite lower bound
    marks the pages of the leftmost spine.  All clauses speak about one page, one slot of a
    page, or two neighbouring leaves. */
module BTreeState {
  import opened Rids

  const NO_PAGE := -1
  const LEAF_HEADER := 1
  const INIT_ROOT := 2

  datatype Node = Node(keys: seq<int>, rids: seq<Rid>, parent: int, leaf: bool, prev: int, next: int)

  /** The index file: its pages, the header fields, the next page number to hand out and
      the node capacity (`btree_order_ + 1`). */
  datatype Tree = Tree(pages: map<int, Node>, root: int, first: int, last: int, nextPage: int, max: int)

  /** `Inf` is minus infinity as a lower bound and plus infinity as an upper bound. */
  datatype Bound = Inf | At(k: int)

  datatype Shape = Shape(ht: map<int, nat>, lo: map<int, Bound>, hi: map<int, Bound>, leaves: seq<int>)

  function MinSize(t: Tree): int {
    t.max / 2
  }

  predicate Below(b: Bound, k: int) {
    b.At? ==> b.k <= k
  }

  predicate Above(k: int, b: Bound) {
    b.At? ==> k < b.k
  }

  predicate Apart(lo: Bound, hi: Bound) {
    lo.At? && hi.At? ==> lo.k < hi.k
  }

  predicate Sorted(s: seq<int>) {
    forall i, j | 0 <= i < j < |s| :: s[i] < s[j]
  }

  predicate Within(s: seq<int>, lo: Bound, hi: Bound) {
    forall i | 0 <= i < |s| :: Below(lo, s[i]) && Above(s[i], hi)
  }

  // ---------------------------------------------------------------- invariant clauses

  ghost predicate DomOk(t: Tree, g: Shape) {
    && g.lo.Keys == g.ht.Keys
    && g.hi.Keys == g.ht.Keys
    && t.root in g.ht
    && LEAF_HEADER in t.pages
    && t.max >= 4
    && (forall p | p in g.ht :: INIT_ROOT <= p && p in t.pages)
    && (forall p | p in t.pages :: p < t.nextPage)
  }

  /** One page on its own: key and rid arrays match, the leaf flag is the height, the key
      interval is not empty, and a leaf's keys are sorted, inside the interval, and start
      exactly at a finite lower bound. */
  ghost predicate NodeOk(t: Tree, g: Shape, p: int)
    requires DomOk(t, g) && p in g.ht
  {
    var n := t.pages[p];
    && |n.keys| == |n.rids|
    && n.leaf == (g.ht[p] == 0)
    && Apart(g.lo[p], g.hi[p])
    && (n.leaf ==> Sorted(n.keys) && Within(n.keys, g.lo[p], g.hi[p]))
    && (n.leaf && g.lo[p].At? ==> |n.keys| > 0 && n.keys[0] == g.lo[p].k)
  }

  ghost predicate NodesOk(t: Tree, g: Shape)
    requires DomOk(t, g)
  {
    forall p | p in g.ht :: NodeOk(t, g, p)
  }

  /** Slot `i` of the internal page `p`: the child is live, one level down, points back, and
      its interval starts where the slot does. */
  ghost predicate KidBase(t: Tree, g: Shape, p: int, i: int)
    requires DomOk(t, g) && p in g.ht && 0 <= i < |t.pages[p].rids|
  {
    var c := t.pages[p].rids[i].page;
    && t.pages[p].rids[i] == Rid(c, -1)
    && c in g.ht
    && g.ht[c] + 1 == g.ht[p]
    && t.pages[c].parent == p
    && (i == 0 ==> g.lo[c] == g.lo[p])
    && (i > 0 ==> g.lo[c].At?)
  }

  /** Slot `i` ends at bound `b`: at the next slot, or at the end of the page. */
  ghost predicate KidHi(t: Tree, g: Shape, p: int, i: int, b: Bound)
    requires DomOk(t, g) && p in g.ht && 0 <= i < |t.pages[p].rids|
  {
    var rids := t.pages[p].rids;
    && (i + 1 == |rids| ==> b == g.hi[p])
    && (i + 1 < |rids| ==> rids[i + 1].page in g.ht && b == g.lo[rids[i + 1].page])
  }

  ghost predicate KidOk(t: Tree, g: Shape, p: int, i: int)
    requires DomOk(t, g) && p in g.ht && 0 <= i < |t.pages[p].rids|
  {
    KidBase(t, g, p, i) && KidHi(t, g, p, i, g.hi[t.pages[p].rids[i].page])
  }

  ghost predicate KidsOk(t: Tree, g: Shape)
    requires DomOk(t, g)
  {
    forall p, i | p in g.ht && g.ht[p] > 0 && 0 <= i < |t.pages[p].rids| :: KidOk(t, g, p, i)
  }

  /** The separator of slot `i` is exactly the lower bound of the child's interval, unless
      the child lies on the leftmost spine, where the stored key may be stale. */
  ghost predicate KeyOk(t: Tree, g: Shape, p: int, i: int)
    requires DomOk(t, g) && p in g.ht && 0 <= i < |t.pages[p].rids|
  {
    var n := t.pages[p];
    var c := n.rids[i].page;
    c in g.ht && g.lo[c].At? ==> i < |n.keys| && n.keys[i] == g.lo[c].k
  }

  ghost predicate KeysOk(t: Tree, g: Shape)
    requires DomOk(t, g)
  {
    forall p, i | p in g.ht && g.ht[p] > 0 && 0 <= i < |t.pages[p].rids| :: KeyOk(t, g, p, i)
  }

  ghost predicate UpOk(t: Tree, g: Shape, p: int)
    requires DomOk(t, g) && p in g.ht
  {
    if p == t.root then
      t.pages[p].parent == NO_PAGE && g.lo[p] == Inf && g.hi[p] == Inf
    else
      var q := t.pages[p].parent;
      q in g.ht && g.ht[q] == g.ht[p] + 1 && Rid(p, -1) in t.pages[q].rids
  }

  ghost predicate UpsOk(t: Tree, g: Shape)
    requires DomOk(t, g)
  {
    forall p | p in g.ht :: UpOk(t, g, p)
  }

  /** Page `x` is the one an operation is still working on: it may hold one entry too many
      or one too few. */
  ghost predicate SizeOk(t: Tree, g: Shape, p: int, x: int)
    requires DomOk(t, g) && p in g.ht
  {
    var s := |t.pages[p].rids|;
    var slack := if p == x then 1 else 0;
    && s < t.max + slack
    && (p != t.root ==> MinSize(t) - slack <= s)
    && (p == t.root && g.ht[p] > 0 ==> 2 - slack <= s)
  }

  ghost predicate SizesOk(t: Tree, g: Shape, x: int)
    requires DomOk(t, g)
  {
    forall p | p in g.ht :: SizeOk(t, g, p, x)
  }

  /** Leaf `i` has height 0 and its interval starts where that of leaf `i - 1` ends. */
  ghost predicate LeafAt(g: Shape, i: int)
    requires g.lo.Keys == g.ht.Keys == g.hi.Keys && 0 <= i < |g.leaves|
  {
    var p := g.leaves[i];
    && p in g.ht && g.ht[p] == 0
    && (i == 0 ==> g.lo[p] == Inf)
    && (i > 0 ==> g.lo[p].At? && g.leaves[i - 1] in g.ht && g.hi[g.leaves[i - 1]] == g.lo[p])
    && (i == |g.leaves| - 1 ==> g.hi[p] == Inf)
  }

  /** The leaves in key order are exactly the live pages of height 0 and their intervals tile
      the whole key space. */
  ghost predicate LeavesOk(t: Tree, g: Shape)
    requires DomOk(t, g)
  {
    && |g.leaves| > 0
    && (forall i | 0 <= i < |g.leaves| :: LeafAt(g, i))
    && (forall p | p in g.ht && g.ht[p] == 0 :: p in g.leaves)
  }

  /** Leaf `i` of the ring; the header page sits before the first and after the last leaf. */
  ghost function RingAt(ls: seq<int>, i: int): int {
    if 0 <= i < |ls| then ls[i] else LEAF_HEADER
  }

  ghost predicate RingSlot(t: Tree, g: Shape, i: int)
    requires 0 <= i < |g.leaves|
  {
    var p := g.leaves[i];
    && p in t.pages
    && t.pages[p].prev == RingAt(g.leaves, i - 1)
    && t.pages[p].next == RingAt(g.leaves, i + 1)
  }

  ghost predicate RingOk(t: Tree, g: Shape)
    requires DomOk(t, g)
  {
    var ls := g.leaves;
    && |ls| > 0
    && t.first == INIT_ROOT == ls[0]
    && t.last == ls[|ls| - 1]
    && t.pages[LEAF_HEADER].next == ls[0]
    && t.pages[LEAF_HEADER].prev == ls[|ls| - 1]
    && (forall i | 0 <= i < |ls| :: RingSlot(t, g, i))
  }

  /** Everything but the separators. */
  ghost predicate Frame(t: Tree, g: Shape, x: int) {
    && DomOk(t, g)
    && NodesOk(t, g)
    && KidsOk(t, g)
    && UpsOk(t, g)
    && SizesOk(t, g, x)
    && LeavesOk(t, g)
    && RingOk(t, g)
  }

  ghost predicate Inv(t: Tree, g: Shape, x: int) {
    Frame(t, g, x) && KeysOk(t, g)
  }

  // ---------------------------------------------------------------- abstract contents

  datatype Entry = Entry(key: int, rid: Rid)

  function Entries(n: Node): (es: seq<Entry>) {
    seq(if |n.keys| <= |n.rids| then |n.keys| else |n.rids|,
        i requires 0 <= i < |n.keys| && i < |n.rids| => Entry(n.keys[i], n.rids[i]))
  }

  /** All entries of the leaves `ls`, left to right. */
  ghost function Flat(pages: map<int, Node>, ls: seq<int>): (es: seq<Entry>) {
    if ls == [] then []
    else (if ls[0] in pages then Entries(pages[ls[0]]) else []) + Flat(pages, ls[1..])
  }

  /** The finite map that a list of entries stands for. */
  ghost function ToMap(es: seq<Entry>): (m: map<int, Rid>) {
    if es == [] then map[] else ToMap(es[1..])[es[0].key := es[0].rid]
  }

  ghost function Contents(t: Tree, g: Shape): (m: map<int, Rid>) {
    ToMap(Flat(t.pages, g.leaves))
  }
}
