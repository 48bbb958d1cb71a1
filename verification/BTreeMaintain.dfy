/** Rewriting separators, and how `maintain_parent` repairs them after a leaf minimum changed. */
module BTreeMaintain {
  import opened Rids
  import opened BTreeState
  import opened BTreeOrder

  function SetKey(t: Tree, q: int, i: int, k: int): (t': Tree)
    requires q in t.pages && 0 <= i < |t.pages[q].keys|
  {
    t.(pages := t.pages[q := t.pages[q].(keys := t.pages[q].keys[i := k])])
  }

  lemma SetKeyKids(t: Tree, g: Shape, q: int, i: int, k: int, t': Tree)
    requires DomOk(t, g) && KidsOk(t, g) && q in g.ht && 0 <= i < |t.pages[q].keys|
    requires t' == SetKey(t, q, i, k)
    ensures DomOk(t', g) && KidsOk(t', g)
  {
    forall u, j | u in g.ht && g.ht[u] > 0 && 0 <= j < |t'.pages[u].rids| ensures KidOk(t', g, u, j) {
      assert KidOk(t, g, u, j);
    }
  }

  lemma SetKeyNodes(t: Tree, g: Shape, x: int, q: int, i: int, k: int, t': Tree)
    requires DomOk(t, g) && NodesOk(t, g) && SizesOk(t, g, x) && UpsOk(t, g)
    requires q in g.ht && g.ht[q] > 0 && 0 <= i < |t.pages[q].keys|
    requires t' == SetKey(t, q, i, k) && DomOk(t', g)
    ensures NodesOk(t', g) && SizesOk(t', g, x) && UpsOk(t', g)
  {
    forall u | u in g.ht ensures NodeOk(t', g, u) && SizeOk(t', g, u, x) && UpOk(t', g, u) {
      assert NodeOk(t, g, u) && SizeOk(t, g, u, x) && UpOk(t, g, u);
      assert NodeOk(t, g, q);
    }
  }

  lemma SetKeyRing(t: Tree, g: Shape, q: int, i: int, k: int, t': Tree)
    requires DomOk(t, g) && LeavesOk(t, g) && RingOk(t, g)
    requires q in g.ht && 0 <= i < |t.pages[q].keys|
    requires t' == SetKey(t, q, i, k) && DomOk(t', g)
    ensures LeavesOk(t', g) && RingOk(t', g)
  {
    forall j | 0 <= j < |g.leaves| ensures RingSlot(t', g, j) {
      assert RingSlot(t, g, j);
    }
  }

  /** A separator write touches nothing but the separators. */
  lemma SetKeyFrame(t: Tree, g: Shape, x: int, q: int, i: int, k: int, t': Tree)
    requires Frame(t, g, x) && q in g.ht && g.ht[q] > 0 && 0 <= i < |t.pages[q].keys|
    requires t' == SetKey(t, q, i, k)
    ensures Frame(t', g, x)
  {
    SetKeyKids(t, g, q, i, k, t');
    SetKeyNodes(t, g, x, q, i, k, t');
    SetKeyRing(t, g, q, i, k, t');
  }

  // ---------------------------------------------------------------- one page per level starts at a given bound

  lemma {:induction false} LoUnique(t: Tree, g: Shape, x: int, c: int, d: int)
    requires Frame(t, g, x) && c in g.ht && d in g.ht
    requires g.ht[c] == g.ht[d] && g.lo[c] == g.lo[d] && g.lo[c].At?
    ensures c == d
    decreases g.ht[c]
  {
    if g.ht[c] == 0 {
      var i, j := LeafIndex(t, g, c), LeafIndex(t, g, d);
      assert LeafAt(g, i) && LeafAt(g, j) && NodeOk(t, g, c) && NodeOk(t, g, d);
      LeafUnique(t, g, i, j, g.lo[c].k);
    } else {
      FirstKid(t, g, x, c);
      FirstKid(t, g, x, d);
      LoUnique(t, g, x, t.pages[c].rids[0].page, t.pages[d].rids[0].page);
    }
  }

  lemma FirstKid(t: Tree, g: Shape, x: int, c: int)
    requires DomOk(t, g) && NodesOk(t, g) && SizesOk(t, g, x) && KidsOk(t, g) && c in g.ht && g.ht[c] > 0
    ensures |t.pages[c].rids| > 0 && KidOk(t, g, c, 0)
    ensures t.pages[c].rids[0].page in g.ht && g.lo[t.pages[c].rids[0].page] == g.lo[c]
    ensures t.pages[t.pages[c].rids[0].page].parent == c
  {
    assert SizeOk(t, g, c, x) && NodeOk(t, g, c);
  }

  // ---------------------------------------------------------------- stale separators

  /** Slot `i` of `u` still shows `was`, although its child starts at `now`, exactly when that
      child is at height `h` or above; every other separator is right. */
  ghost predicate StaleSlot(t: Tree, g: Shape, h: int, was: int, now: int, u: int, i: int)
    requires DomOk(t, g) && u in g.ht && 0 <= i < |t.pages[u].rids|
  {
    var c := t.pages[u].rids[i].page;
    if c in g.ht && g.lo[c] == At(now) && g.ht[c] >= h then
      i < |t.pages[u].keys| && t.pages[u].keys[i] == was
    else
      KeyOk(t, g, u, i)
  }

  ghost predicate Stale(t: Tree, g: Shape, h: int, was: int, now: int)
    requires DomOk(t, g)
  {
    forall u, i | u in g.ht && g.ht[u] > 0 && 0 <= i < |t.pages[u].rids| :: StaleSlot(t, g, h, was, now, u, i)
  }

  /** What holds each time `maintain_parent` looks at page `p`: the separators are right, or
      those of the chain above `p` still show the old minimum. */
  ghost predicate Climbing(t: Tree, g: Shape, x: int, p: int, was: int) {
    && Frame(t, g, x) && p in g.ht && |t.pages[p].keys| > 0
    && (KeysOk(t, g)
        || (&& g.lo[p].At? && t.pages[p].keys[0] == g.lo[p].k != was
            && Stale(t, g, g.ht[p], was, g.lo[p].k)))
  }

  /** The first key of a page that does not lie on the leftmost spine is its lower bound. */
  lemma FirstKey(t: Tree, g: Shape, x: int, p: int)
    requires Inv(t, g, x) && p in g.ht && g.lo[p].At? && |t.pages[p].keys| > 0
    ensures t.pages[p].keys[0] == g.lo[p].k
  {
    assert NodeOk(t, g, p);
    if g.ht[p] > 0 {
      FirstKid(t, g, x, p);
      assert KeyOk(t, g, p, 0);
    }
  }

  /** The loop may stop when the parent already shows the first key. */
  lemma ClimbStop(t: Tree, g: Shape, x: int, p: int, was: int, i: int)
    requires Climbing(t, g, x, p, was) && p != t.root
    requires t.pages[p].parent in g.ht && 0 <= i < |t.pages[t.pages[p].parent].rids|
    requires g.ht[t.pages[p].parent] == g.ht[p] + 1
    requires t.pages[t.pages[p].parent].rids[i] == Rid(p, -1)
    requires i < |t.pages[t.pages[p].parent].keys|
    requires t.pages[t.pages[p].parent].keys[i] == t.pages[p].keys[0]
    ensures KeysOk(t, g)
  {
    assert KeysOk(t, g) || StaleSlot(t, g, g.ht[p], was, g.lo[p].k, t.pages[p].parent, i);
  }

  /** At the root nothing is left to repair. */
  lemma ClimbEnd(t: Tree, g: Shape, x: int, p: int, was: int)
    requires Climbing(t, g, x, p, was) && p == t.root
    ensures KeysOk(t, g)
  {
    assert UpOk(t, g, p);
  }

  lemma ClimbStepOk(t: Tree, g: Shape, x: int, p: int, i: int, t': Tree)
    requires Inv(t, g, x) && p in g.ht && |t.pages[p].keys| > 0 && p != t.root
    requires t.pages[p].parent in g.ht && 0 <= i < |t.pages[t.pages[p].parent].rids|
    requires g.ht[t.pages[p].parent] == g.ht[p] + 1
    requires t.pages[t.pages[p].parent].rids[i] == Rid(p, -1)
    requires i < |t.pages[t.pages[p].parent].keys|
    requires t' == SetKey(t, t.pages[p].parent, i, t.pages[p].keys[0])
    ensures DomOk(t', g) && KeysOk(t', g)
  {
    if g.lo[p].At? {
      FirstKey(t, g, x, p);
    }
    forall u, j | u in g.ht && g.ht[u] > 0 && 0 <= j < |t'.pages[u].rids| ensures KeyOk(t', g, u, j) {
      assert KeyOk(t, g, u, j);
    }
  }

  lemma ClimbStepStale(t: Tree, g: Shape, x: int, p: int, was: int, i: int, t': Tree)
    requires Climbing(t, g, x, p, was) && !KeysOk(t, g) && p != t.root
    requires t.pages[p].parent in g.ht && 0 <= i < |t.pages[t.pages[p].parent].rids|
    requires g.ht[t.pages[p].parent] == g.ht[p] + 1
    requires t.pages[t.pages[p].parent].rids[i] == Rid(p, -1)
    requires i < |t.pages[t.pages[p].parent].keys|
    requires t' == SetKey(t, t.pages[p].parent, i, t.pages[p].keys[0])
    ensures DomOk(t', g) && Stale(t', g, g.ht[p] + 1, was, g.lo[p].k)
  {
    var q := t.pages[p].parent;
    var now, h := g.lo[p].k, g.ht[p] + 1;
    forall u, j | u in g.ht && g.ht[u] > 0 && 0 <= j < |t'.pages[u].rids|
      ensures StaleSlot(t', g, h, was, now, u, j)
    {
      assert StaleSlot(t, g, g.ht[p], was, now, u, j);
      assert KidOk(t, g, u, j);
      var c := t.pages[u].rids[j].page;
      if g.lo[c] == At(now) && g.ht[c] == g.ht[p] {
        LoUnique(t, g, x, c, p);
        assert u == q;
        if i < j { KidsDistinct(t, g, q, i, j); } else if j < i { KidsDistinct(t, g, q, j, i); }
      }
    }
  }

  /** If no page above height `h` starts at `now`, nothing is stale any more. */
  lemma StaleDone(t: Tree, g: Shape, x: int, p: int, was: int, now: int, q: int)
    requires Frame(t, g, x) && p in g.ht && q in g.ht && g.ht[q] == g.ht[p] + 1
    requires Stale(t, g, g.ht[p] + 1, was, now) && g.lo[q] != At(now)
    requires g.lo[p] == At(now) && t.pages[p].parent == q
    ensures KeysOk(t, g)
  {
    forall u, j | u in g.ht && g.ht[u] > 0 && 0 <= j < |t.pages[u].rids| ensures KeyOk(t, g, u, j) {
      assert StaleSlot(t, g, g.ht[p] + 1, was, now, u, j);
      assert KidOk(t, g, u, j);
      var c := t.pages[u].rids[j].page;
      if g.lo[c] == At(now) && g.ht[c] >= g.ht[p] + 1 {
        AncestorAt(t, g, x, p, c);
      }
    }
  }

  /** Any page above `p` that starts where `p` starts forces the parent of `p` to do so. */
  lemma {:induction false} AncestorAt(t: Tree, g: Shape, x: int, p: int, c: int)
    requires Frame(t, g, x) && p in g.ht && c in g.ht && g.ht[c] > g.ht[p]
    requires g.lo[c] == g.lo[p] && g.lo[p].At?
    requires t.pages[p].parent in g.ht
    ensures g.lo[t.pages[p].parent] == g.lo[p]
    decreases g.ht[c]
  {
    FirstKid(t, g, x, c);
    var d := t.pages[c].rids[0].page;
    if g.ht[d] == g.ht[p] {
      LoUnique(t, g, x, d, p);
    } else {
      AncestorAt(t, g, x, p, d);
    }
  }

  /** One round of `maintain_parent`. */
  lemma ClimbStep(t: Tree, g: Shape, x: int, p: int, was: int, i: int, t': Tree)
    requires Climbing(t, g, x, p, was) && p != t.root
    requires t.pages[p].parent in g.ht && 0 <= i < |t.pages[t.pages[p].parent].rids|
    requires g.ht[t.pages[p].parent] == g.ht[p] + 1
    requires t.pages[t.pages[p].parent].rids[i] == Rid(p, -1)
    requires i < |t.pages[t.pages[p].parent].keys|
    requires t' == SetKey(t, t.pages[p].parent, i, t.pages[p].keys[0])
    ensures Climbing(t', g, x, t.pages[p].parent, was)
  {
    var q := t.pages[p].parent;
    SetKeyFrame(t, g, x, q, i, t.pages[p].keys[0], t');
    if KeysOk(t, g) {
      ClimbStepOk(t, g, x, p, i, t');
    } else {
      ClimbStepStale(t, g, x, p, was, i, t');
      if g.lo[q] == g.lo[p] {
        ClimbFirst(t, g, x, p, q, i);
      } else {
        StaleDone(t', g, x, p, was, g.lo[p].k, q);
      }
    }
  }

  /** A child that starts where its parent starts sits in slot 0. */
  lemma ClimbFirst(t: Tree, g: Shape, x: int, p: int, q: int, i: int)
    requires Frame(t, g, x) && p in g.ht && q in g.ht && g.ht[q] > 0
    requires 0 <= i < |t.pages[q].rids| && t.pages[q].rids[i] == Rid(p, -1)
    requires g.lo[q] == g.lo[p] && g.lo[p].At?
    ensures i == 0
  {
    FirstKid(t, g, x, q);
    assert NodeOk(t, g, t.pages[q].rids[0].page);
    if i > 0 {
      KidsApart(t, g, q, 0, i);
    }
  }
}
