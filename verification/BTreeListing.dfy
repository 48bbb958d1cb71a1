/** The entries met from leaf to leaf are strictly in key order, and they are the map. */
module BTreeListing {
  import opened BTreeState
  import opened BTreeContents
  import opened BTreeCursor
  import opened BTreeScan

  ghost predicate Ascending(es: seq<Entry>)
  {
    forall i, j :: 0 <= i < j < |es| ==> es[i].key < es[j].key
  }

  lemma {:induction false} LeavesAscend(t: Tree, g: Shape, i: nat)
    requires DomOk(t, g) && NodesOk(t, g) && LeavesOk(t, g) && i <= |g.leaves|
    ensures Ascending(Flat(t.pages, g.leaves[..i]))
  {
    if i > 0 {
      var p := g.leaves[i - 1];
      assert LeafAt(g, i - 1) && NodeOk(t, g, p);
      LeavesAscend(t, g, i - 1);
      assert g.leaves[..i] == g.leaves[..i - 1] + [p];
      FlatJoin(t.pages, g.leaves[..i - 1], [p]);
      assert [p][1..] == [];
      assert Flat(t.pages, [p]) == Entries(t.pages[p]) + Flat(t.pages, []);
      if i > 1 {
        LeftBelow(t, g, 0, i - 1);
        assert g.leaves[0..i - 1] == g.leaves[..i - 1];
      }
      AscendJoin(Flat(t.pages, g.leaves[..i - 1]), t.pages[p], g.lo[p]);
    }
  }

  lemma AscendJoin(es: seq<Entry>, n: Node, lo: Bound)
    requires Ascending(es) && Sorted(n.keys) && |n.keys| == |n.rids|
    requires es == [] || (lo.At? && AllBelow(es, lo.k) && forall i | 0 <= i < |n.keys| :: lo.k <= n.keys[i])
    ensures Ascending(es + Entries(n))
  {}

  /** No key appears twice and the listing is sorted. */
  lemma AllAscending(t: Tree, g: Shape)
    requires DomOk(t, g) && NodesOk(t, g) && LeavesOk(t, g)
    ensures Ascending(All(t, g))
  {
    LeavesAscend(t, g, |g.leaves|);
    assert g.leaves[..|g.leaves|] == g.leaves;
  }

  /** The map holds exactly the listed entries. */
  lemma {:induction false} MapListed(es: seq<Entry>)
    requires Ascending(es)
    ensures forall e :: e in es <==> e.key in ToMap(es) && ToMap(es)[e.key] == e.rid
    decreases |es|
  {
    if es != [] {
      MapListed(es[1..]);
      forall e ensures e in es <==> e.key in ToMap(es) && ToMap(es)[e.key] == e.rid {
        assert e in es <==> e == es[0] || e in es[1..];
        if e in es[1..] {
          var i :| 0 <= i < |es[1..]| && es[1..][i] == e;
          assert es[i + 1] == e;
        }
      }
    }
  }

  lemma {:induction false} SelectListed(es: seq<Entry>, lo: int, loIn: bool, hi: int, hiIn: bool)
    requires Ascending(es)
    ensures Ascending(Select(es, lo, loIn, hi, hiIn))
    ensures forall e :: e in Select(es, lo, loIn, hi, hiIn) <==> e in es && InRange(e.key, lo, loIn, hi, hiIn)
    decreases |es|
  {
    if es != [] {
      var rest := Select(es[1..], lo, loIn, hi, hiIn);
      SelectListed(es[1..], lo, loIn, hi, hiIn);
      forall i | 0 <= i < |rest| ensures es[0].key < rest[i].key {
        assert rest[i] in es[1..];
      }
    }
  }
}
