/** What the operations do to the entries a tree holds. */
module BTreeContents {
  import opened Rids
  import opened BTreeState
  import opened BTreeOrder
  import opened BTreeInsert

  ghost predicate NoKey(es: seq<Entry>, k: int) {
    forall i | 0 <= i < |es| :: es[i].key != k
  }

  lemma {:induction false} FlatJoin(pages: map<int, Node>, a: seq<int>, b: seq<int>)
    ensures Flat(pages, a + b) == Flat(pages, a) + Flat(pages, b)
  {
    if a == [] {
      assert a + b == b;
    } else {
      FlatJoin(pages, a[1..], b);
      assert (a + b)[1..] == a[1..] + b;
    }
  }

  /** Only the entries of the listed leaves matter. */
  lemma {:induction false} FlatFrame(pages: map<int, Node>, pages': map<int, Node>, ls: seq<int>)
    requires forall i | 0 <= i < |ls| :: ls[i] in pages && ls[i] in pages'
               && pages'[ls[i]].keys == pages[ls[i]].keys && pages'[ls[i]].rids == pages[ls[i]].rids
    ensures Flat(pages', ls) == Flat(pages, ls)
  {
    if ls != [] {
      assert Entries(pages'[ls[0]]) == Entries(pages[ls[0]]);
      FlatFrame(pages, pages', ls[1..]);
    }
  }

  /** Leaf `i` between the leaves before and after it. */
  lemma FlatAround(pages: map<int, Node>, ls: seq<int>, i: int)
    requires 0 <= i < |ls| && ls[i] in pages
    ensures Flat(pages, ls) == Flat(pages, ls[..i]) + Entries(pages[ls[i]]) + Flat(pages, ls[i + 1..])
  {
    assert ls == ls[..i] + ls[i..];
    FlatJoin(pages, ls[..i], ls[i..]);
    assert ls[i..][1..] == ls[i + 1..];
  }

  // ---------------------------------------------------------------- lists of entries as maps

  lemma {:induction false} MapInsert(a: seq<Entry>, e: Entry, b: seq<Entry>)
    requires NoKey(a, e.key)
    ensures ToMap(a + [e] + b) == ToMap(a + b)[e.key := e.rid]
  {
    if a == [] {
      assert a + [e] + b == [e] + b && ([e] + b)[1..] == b && a + b == b;
    } else {
      assert (a + [e] + b)[1..] == a[1..] + [e] + b && (a + b)[1..] == a[1..] + b;
      MapInsert(a[1..], e, b);
    }
  }

  lemma {:induction false} MapNoKey(es: seq<Entry>, k: int)
    ensures k in ToMap(es) <==> !NoKey(es, k)
  {
    if es != [] {
      MapNoKey(es[1..], k);
      assert forall i | 0 < i < |es| :: es[i] == es[1..][i - 1];
      assert NoKey(es, k) <==> es[0].key != k && NoKey(es[1..], k);
    }
  }

  lemma MapRemove(a: seq<Entry>, e: Entry, b: seq<Entry>)
    requires NoKey(a, e.key) && NoKey(b, e.key)
    ensures ToMap(a + b) == ToMap(a + [e] + b) - {e.key}
  {
    MapInsert(a, e, b);
    MapNoKey(a + b, e.key);
  }

  /** With the key at one place only, the map shows that entry. */
  lemma MapAt(a: seq<Entry>, e: Entry, b: seq<Entry>)
    requires NoKey(a, e.key)
    ensures e.key in ToMap(a + [e] + b) && ToMap(a + [e] + b)[e.key] == e.rid
  {
    MapInsert(a, e, b);
  }

  // ---------------------------------------------------------------- where a key lives

  /** Leaves other than the one whose interval holds `k` do not mention `k`. */
  lemma {:induction false} ElsewhereNoKey(t: Tree, g: Shape, p: int, k: int, a: int, b: int)
    requires DomOk(t, g) && NodesOk(t, g) && LeavesOk(t, g) && p in g.ht && g.ht[p] == 0
    requires Below(g.lo[p], k) && Above(k, g.hi[p])
    requires 0 <= a <= b <= |g.leaves| && !(a <= LeafIndex(t, g, p) < b)
    ensures NoKey(Flat(t.pages, g.leaves[a..b]), k)
    decreases b - a
  {
    if a < b {
      var ls := g.leaves[a..b];
      ElsewhereNoKey(t, g, p, k, a + 1, b);
      assert ls[1..] == g.leaves[a + 1..b];
      assert LeafAt(g, a) && NodeOk(t, g, g.leaves[a]);
      LeafNoKey(t, g, p, k, a);
    }
  }

  lemma LeafNoKey(t: Tree, g: Shape, p: int, k: int, a: int)
    requires DomOk(t, g) && NodesOk(t, g) && LeavesOk(t, g) && p in g.ht && g.ht[p] == 0
    requires Below(g.lo[p], k) && Above(k, g.hi[p])
    requires 0 <= a < |g.leaves| && a != LeafIndex(t, g, p) && g.leaves[a] in t.pages
    ensures NoKey(Entries(t.pages[g.leaves[a]]), k)
  {
    var i := LeafIndex(t, g, p);
    var n := t.pages[g.leaves[a]];
    assert LeafAt(g, a) && LeafAt(g, i) && NodeOk(t, g, g.leaves[a]);
    forall m | 0 <= m < |Entries(n)| ensures Entries(n)[m].key != k {
      if n.keys[m] == k {
        LeafUnique(t, g, i, a, k);
      }
    }
  }

  /** Everything left of, in, and right of leaf `p`. */
  ghost function Left(t: Tree, g: Shape, p: int): (es: seq<Entry>)
    requires DomOk(t, g) && LeavesOk(t, g) && p in g.ht && g.ht[p] == 0
  {
    Flat(t.pages, g.leaves[..LeafIndex(t, g, p)])
  }

  ghost function Right(t: Tree, g: Shape, p: int): (es: seq<Entry>)
    requires DomOk(t, g) && LeavesOk(t, g) && p in g.ht && g.ht[p] == 0
  {
    Flat(t.pages, g.leaves[LeafIndex(t, g, p) + 1..])
  }

  lemma Around(t: Tree, g: Shape, p: int, k: int)
    requires DomOk(t, g) && NodesOk(t, g) && LeavesOk(t, g) && p in g.ht && g.ht[p] == 0
    requires Below(g.lo[p], k) && Above(k, g.hi[p])
    ensures Flat(t.pages, g.leaves) == Left(t, g, p) + Entries(t.pages[p]) + Right(t, g, p)
    ensures NoKey(Left(t, g, p), k) && NoKey(Right(t, g, p), k)
  {
    var i := LeafIndex(t, g, p);
    FlatAround(t.pages, g.leaves, i);
    ElsewhereNoKey(t, g, p, k, 0, i);
    ElsewhereNoKey(t, g, p, k, i + 1, |g.leaves|);
    assert g.leaves[0..i] == g.leaves[..i] && g.leaves[i + 1..|g.leaves|] == g.leaves[i + 1..];
  }

  /** Looking a key up in its leaf is looking it up in the whole tree. */
  lemma Lookup(t: Tree, g: Shape, p: int, k: int, pos: int)
    requires DomOk(t, g) && NodesOk(t, g) && LeavesOk(t, g) && p in g.ht && g.ht[p] == 0
    requires Below(g.lo[p], k) && Above(k, g.hi[p])
    requires IsLowerBound(t.pages[p].keys, k, pos)
    ensures |t.pages[p].keys| == |t.pages[p].rids|
    ensures (k in Contents(t, g)) == (pos < |t.pages[p].keys| && t.pages[p].keys[pos] == k)
    ensures k in Contents(t, g) ==> Contents(t, g)[k] == t.pages[p].rids[pos]
  {
    assert NodeOk(t, g, p);
    Around(t, g, p, k);
    var n := t.pages[p];
    var es := Entries(n);
    MapNoKey(Flat(t.pages, g.leaves), k);
    if pos < |n.keys| && n.keys[pos] == k {
      var a, b := Left(t, g, p) + es[..pos], es[pos + 1..] + Right(t, g, p);
      assert Flat(t.pages, g.leaves) == a + [es[pos]] + b;
      MapAt(a, es[pos], b);
    } else {
      assert NoKey(es, k);
    }
  }

  lemma EntriesInsert(n: Node, pos: int, k: int, r: Rid)
    requires 0 <= pos <= |n.keys| == |n.rids|
    ensures Entries(InsertPair(n, pos, k, r)) == Entries(n)[..pos] + [Entry(k, r)] + Entries(n)[pos..]
  {
  }

  lemma EntriesErase(n: Node, pos: int)
    requires 0 <= pos < |n.keys| == |n.rids|
    ensures Entries(n) == Entries(n)[..pos] + [Entry(n.keys[pos], n.rids[pos])] + Entries(n)[pos + 1..]
    ensures Entries(ErasePair(n, pos)) == Entries(n)[..pos] + Entries(n)[pos + 1..]
  {
  }

  /** Replacing the entries of leaf `p` replaces the middle of the entry list. */
  lemma FlatReplace(t: Tree, g: Shape, p: int, t': Tree)
    requires DomOk(t, g) && NodesOk(t, g) && LeavesOk(t, g) && p in g.ht && g.ht[p] == 0
    requires p in t'.pages && t'.pages == t.pages[p := t'.pages[p]]
    ensures Flat(t'.pages, g.leaves) == Left(t, g, p) + Entries(t'.pages[p]) + Right(t, g, p)
  {
    var i := LeafIndex(t, g, p);
    var ls := g.leaves;
    FlatAround(t'.pages, ls, i);
    forall j | 0 <= j < |ls| && j != i ensures ls[j] != p && ls[j] in t.pages {
      assert LeafAt(g, j);
      if j < i { LeafOrder(t, g, j, i); } else { LeafOrder(t, g, i, j); }
    }
    FlatFrame(t.pages, t'.pages, ls[..i]);
    FlatFrame(t.pages, t'.pages, ls[i + 1..]);
  }

  lemma RegroupInsert<T>(l: seq<T>, es: seq<T>, r: seq<T>, pos: int, e: T)
    requires 0 <= pos <= |es|
    ensures l + es + r == (l + es[..pos]) + (es[pos..] + r)
    ensures l + (es[..pos] + [e] + es[pos..]) + r == (l + es[..pos]) + [e] + (es[pos..] + r)
  {
  }

  lemma RegroupErase<T>(l: seq<T>, es: seq<T>, r: seq<T>, pos: int)
    requires 0 <= pos < |es|
    ensures l + es + r == (l + es[..pos]) + [es[pos]] + (es[pos + 1..] + r)
    ensures l + (es[..pos] + es[pos + 1..]) + r == (l + es[..pos]) + (es[pos + 1..] + r)
  {
  }

  lemma NoKeyAround(l: seq<Entry>, es: seq<Entry>, r: seq<Entry>, k: int)
    requires NoKey(l, k) && NoKey(es, k) && NoKey(r, k)
    ensures NoKey(l + es, k) && NoKey(es + r, k)
  {
  }

  /** Inserting a new key into its leaf adds exactly that binding. */
  lemma InsertContents(t: Tree, g: Shape, p: int, pos: int, k: int, r: Rid, t': Tree)
    requires DomOk(t, g) && NodesOk(t, g) && LeavesOk(t, g) && p in g.ht && g.ht[p] == 0
    requires Below(g.lo[p], k) && Above(k, g.hi[p])
    requires |t.pages[p].keys| == |t.pages[p].rids| && IsLowerBound(t.pages[p].keys, k, pos)
    requires pos < |t.pages[p].keys| ==> t.pages[p].keys[pos] != k
    requires t'.pages == t.pages[p := InsertPair(t.pages[p], pos, k, r)]
    ensures Contents(t', g) == Contents(t, g)[k := r]
  {
    Around(t, g, p, k);
    FlatReplace(t, g, p, t');
    EntriesInsert(t.pages[p], pos, k, r);
    var es := Entries(t.pages[p]);
    RegroupInsert(Left(t, g, p), es, Right(t, g, p), pos, Entry(k, r));
    assert NoKey(es[..pos], k);
    NoKeyAround(Left(t, g, p), es[..pos], [], k);
    MapInsert(Left(t, g, p) + es[..pos], Entry(k, r), es[pos..] + Right(t, g, p));
  }

  /** Erasing a key from its leaf removes exactly that binding. */
  lemma EraseContents(t: Tree, g: Shape, p: int, pos: int, t': Tree)
    requires DomOk(t, g) && NodesOk(t, g) && LeavesOk(t, g) && p in g.ht && g.ht[p] == 0
    requires 0 <= pos < |t.pages[p].keys| == |t.pages[p].rids|
    requires t'.pages == t.pages[p := ErasePair(t.pages[p], pos)]
    ensures Contents(t', g) == Contents(t, g) - {t.pages[p].keys[pos]}
  {
    assert NodeOk(t, g, p);
    var k := t.pages[p].keys[pos];
    Around(t, g, p, k);
    FlatReplace(t, g, p, t');
    EntriesErase(t.pages[p], pos);
    var es := Entries(t.pages[p]);
    RegroupErase(Left(t, g, p), es, Right(t, g, p), pos);
    assert NoKey(es[..pos], k) && NoKey(es[pos + 1..], k);
    NoKeyAround(Left(t, g, p), es[..pos], [], k);
    NoKeyAround([], es[pos + 1..], Right(t, g, p), k);
    MapRemove(Left(t, g, p) + es[..pos], es[pos], es[pos + 1..] + Right(t, g, p));
  }
}
