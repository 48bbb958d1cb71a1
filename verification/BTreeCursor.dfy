/** Cursors over the leaf ring.  A cursor stands for a position in the sorted list of entries. */
module BTreeCursor {
  import opened BTreeState
  import opened BTreeOrder
  import opened BTreeContents

  datatype Iid = Iid(page: int, slot: int)

  ghost function All(t: Tree, g: Shape): (es: seq<Entry>) {
    Flat(t.pages, g.leaves)
  }

  /** Number of entries in the leaves before leaf `i`. */
  ghost function Before(t: Tree, g: Shape, i: int): (n: nat)
    requires 0 <= i <= |g.leaves|
  {
    |Flat(t.pages, g.leaves[..i])|
  }

  /** The cursor points at an entry, or just past the last entry of the last leaf. */
  ghost predicate Cursor(t: Tree, g: Shape, c: Iid) {
    && DomOk(t, g) && LeavesOk(t, g)
    && c.page in g.ht && g.ht[c.page] == 0
    && |t.pages[c.page].keys| == |t.pages[c.page].rids|
    && 0 <= c.slot <= |t.pages[c.page].keys|
    && (c.slot < |t.pages[c.page].keys| || LeafIndex(t, g, c.page) == |g.leaves| - 1)
  }

  ghost function PosOf(t: Tree, g: Shape, c: Iid): (n: nat)
    requires Cursor(t, g, c)
  {
    Before(t, g, LeafIndex(t, g, c.page)) + c.slot
  }

  /** `pos` separates the keys below `k` from the others. */
  ghost predicate CutBelow(es: seq<Entry>, k: int, pos: int) {
    && 0 <= pos <= |es|
    && (forall i | 0 <= i < pos :: es[i].key < k)
    && (forall i | pos <= i < |es| :: k <= es[i].key)
  }

  /** `pos` separates the keys up to `k` from the others. */
  ghost predicate CutAbove(es: seq<Entry>, k: int, pos: int) {
    && 0 <= pos <= |es|
    && (forall i | 0 <= i < pos :: es[i].key <= k)
    && (forall i | pos <= i < |es| :: k < es[i].key)
  }

  // ---------------------------------------------------------------- order of the whole list

  ghost predicate AllBelow(es: seq<Entry>, k: int) {
    forall i | 0 <= i < |es| :: es[i].key < k
  }

  ghost predicate AllFrom(es: seq<Entry>, k: int) {
    forall i | 0 <= i < |es| :: k <= es[i].key
  }

  /** Every entry before a leaf is below the leaf's lower bound. */
  lemma {:induction false} LeftBelow(t: Tree, g: Shape, a: int, i: int)
    requires DomOk(t, g) && NodesOk(t, g) && LeavesOk(t, g) && 0 <= a <= i < |g.leaves| && i > 0
    requires LeafAt(g, i)
    ensures AllBelow(Flat(t.pages, g.leaves[a..i]), g.lo[g.leaves[i]].k)
    decreases i - a
  {
    if a < i {
      LeftBelow(t, g, a + 1, i);
      assert g.leaves[a..i][1..] == g.leaves[a + 1..i];
      LeafOrder(t, g, a, i);
      assert NodeOk(t, g, g.leaves[a]) && LeafAt(g, a);
    }
  }

  /** Every entry after a leaf is at or above the leaf's upper bound. */
  lemma {:induction false} RightFrom(t: Tree, g: Shape, i: int, b: int)
    requires DomOk(t, g) && NodesOk(t, g) && LeavesOk(t, g) && 0 <= i < b <= |g.leaves|
    requires LeafAt(g, i) && i + 1 < |g.leaves|
    ensures g.hi[g.leaves[i]].At? && AllFrom(Flat(t.pages, g.leaves[b..]), g.hi[g.leaves[i]].k)
    decreases |g.leaves| - b
  {
    LeafOrder(t, g, i, i + 1);
    if b < |g.leaves| {
      RightFrom(t, g, i, b + 1);
      assert g.leaves[b..][1..] == g.leaves[b + 1..];
      LeafOrder(t, g, i, b);
      assert NodeOk(t, g, g.leaves[b]) && LeafAt(g, b);
    }
  }

  /** The cut of a leaf at slot `s`, seen from the whole list. */
  lemma LeafCut(t: Tree, g: Shape, p: int, k: int, s: int, up: bool)
    requires DomOk(t, g) && NodesOk(t, g) && LeavesOk(t, g) && p in g.ht && g.ht[p] == 0
    requires Below(g.lo[p], k) && Above(k, g.hi[p])
    requires 0 <= s <= |t.pages[p].keys| == |t.pages[p].rids|
    requires forall i | 0 <= i < s :: t.pages[p].keys[i] < k || (up && t.pages[p].keys[i] == k)
    requires forall i | s <= i < |t.pages[p].keys| :: k < t.pages[p].keys[i] || (!up && k == t.pages[p].keys[i])
    ensures !up ==> CutBelow(All(t, g), k, Before(t, g, LeafIndex(t, g, p)) + s)
    ensures up ==> CutAbove(All(t, g), k, Before(t, g, LeafIndex(t, g, p)) + s)
  {
    var i := LeafIndex(t, g, p);
    assert LeafAt(g, i);
    FlatAround(t.pages, g.leaves, i);
    var a, m, b := Flat(t.pages, g.leaves[..i]), Entries(t.pages[p]), Flat(t.pages, g.leaves[i + 1..]);
    if i > 0 {
      LeftBelow(t, g, 0, i);
      assert g.leaves[0..i] == g.leaves[..i];
    }
    if i + 1 < |g.leaves| {
      RightFrom(t, g, i, i + 1);
    }
    assert AllBelow(a, k) && (forall j | 0 <= j < |b| :: k < b[j].key);
    CutMiddle(a, m, b, s, k, up);
  }

  lemma CutMiddle(a: seq<Entry>, m: seq<Entry>, b: seq<Entry>, s: int, k: int, up: bool)
    requires 0 <= s <= |m| && AllBelow(a, k) && (forall j | 0 <= j < |b| :: k < b[j].key)
    requires forall i | 0 <= i < s :: m[i].key < k || (up && m[i].key == k)
    requires forall i | s <= i < |m| :: k < m[i].key || (!up && k == m[i].key)
    ensures !up ==> CutBelow(a + m + b, k, |a| + s)
    ensures up ==> CutAbove(a + m + b, k, |a| + s)
  {
  }

  // ---------------------------------------------------------------- positions

  lemma BeforeStep(t: Tree, g: Shape, i: int)
    requires DomOk(t, g) && NodesOk(t, g) && LeavesOk(t, g) && 0 <= i < |g.leaves|
    ensures LeafAt(g, i) && Before(t, g, i + 1) == Before(t, g, i) + |t.pages[g.leaves[i]].keys|
    ensures i > 0 ==> |t.pages[g.leaves[i]].keys| > 0
    ensures |t.pages[g.leaves[i]].keys| == |t.pages[g.leaves[i]].rids|
  {
    assert LeafAt(g, i) && NodeOk(t, g, g.leaves[i]);
    assert g.leaves[..i + 1] == g.leaves[..i] + [g.leaves[i]];
    FlatJoin(t.pages, g.leaves[..i], [g.leaves[i]]);
    assert [g.leaves[i]][1..] == [];
    assert Flat(t.pages, [g.leaves[i]]) == Entries(t.pages[g.leaves[i]]) + Flat(t.pages, []);
  }

  lemma {:induction false} BeforeMono(t: Tree, g: Shape, i: int, j: int)
    requires DomOk(t, g) && NodesOk(t, g) && LeavesOk(t, g) && 0 <= i <= j <= |g.leaves|
    ensures Before(t, g, i) <= Before(t, g, j)
    decreases j - i
  {
    if i < j {
      BeforeStep(t, g, i);
      BeforeMono(t, g, i + 1, j);
    }
  }

  /** Different cursors stand for different positions. */
  lemma PosUnique(t: Tree, g: Shape, c: Iid, d: Iid)
    requires DomOk(t, g) && NodesOk(t, g) && LeavesOk(t, g) && Cursor(t, g, c) && Cursor(t, g, d)
    requires PosOf(t, g, c) == PosOf(t, g, d)
    ensures c == d
  {
    var i, j := LeafIndex(t, g, c.page), LeafIndex(t, g, d.page);
    if i < j {
      BeforeStep(t, g, i);
      BeforeMono(t, g, i + 1, j);
    } else if j < i {
      BeforeStep(t, g, j);
      BeforeMono(t, g, j + 1, i);
    }
  }

  /** A cursor that is not at the end shows the entry at its position. */
  lemma PosEntry(t: Tree, g: Shape, c: Iid)
    requires DomOk(t, g) && NodesOk(t, g) && LeavesOk(t, g) && Cursor(t, g, c)
    ensures PosOf(t, g, c) <= |All(t, g)|
    ensures PosOf(t, g, c) < |All(t, g)| <==> c.slot < |t.pages[c.page].keys|
    ensures c.slot < |t.pages[c.page].keys| ==>
              All(t, g)[PosOf(t, g, c)] == Entry(t.pages[c.page].keys[c.slot], t.pages[c.page].rids[c.slot])
  {
    var i := LeafIndex(t, g, c.page);
    FlatAround(t.pages, g.leaves, i);
    if i == |g.leaves| - 1 {
      assert g.leaves[i + 1..] == [];
    }
  }

  /** One step to the right: the next slot, or the first slot of the next leaf. */
  lemma PosNext(t: Tree, g: Shape, c: Iid, d: Iid)
    requires DomOk(t, g) && NodesOk(t, g) && LeavesOk(t, g) && RingOk(t, g) && Cursor(t, g, c)
    requires c.slot < |t.pages[c.page].keys|
    requires d == if c.page != t.last && c.slot + 1 == |t.pages[c.page].keys|
                  then Iid(t.pages[c.page].next, 0) else Iid(c.page, c.slot + 1)
    ensures Cursor(t, g, d) && PosOf(t, g, d) == PosOf(t, g, c) + 1
  {
    SlotPos(t, g, c.page, c.slot + 1, d);
  }

  /** Slot `s` of leaf `p`, moved to the next leaf when it is past the end. */
  lemma SlotPos(t: Tree, g: Shape, p: int, s: int, d: Iid)
    requires DomOk(t, g) && NodesOk(t, g) && LeavesOk(t, g) && RingOk(t, g) && p in g.ht && g.ht[p] == 0
    requires 0 <= s <= |t.pages[p].keys|
    requires d == if p != t.last && s == |t.pages[p].keys| then Iid(t.pages[p].next, 0) else Iid(p, s)
    ensures Cursor(t, g, d) && PosOf(t, g, d) == Before(t, g, LeafIndex(t, g, p)) + s
  {
    var i := LeafIndex(t, g, p);
    BeforeStep(t, g, i);
    assert RingSlot(t, g, i);
    if p != t.last && s == |t.pages[p].keys| {
      BeforeStep(t, g, i + 1);
      var j := LeafIndex(t, g, d.page);
      if i + 1 < j { LeafOrder(t, g, i + 1, j); } else if j < i + 1 { LeafOrder(t, g, j, i + 1); }
    } else if p == t.last && i < |g.leaves| - 1 {
      LeafOrder(t, g, i, |g.leaves| - 1);
    }
  }
}
