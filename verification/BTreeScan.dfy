/** Range scans, and whole histories of index operations. */
module BTreeScan {
  import opened Rids
  import opened BTreeState
  import opened BTreeCursor
  import opened BTreeIndex

  function RidsOf(es: seq<Entry>): (rs: seq<Rid>) {
    seq(|es|, i requires 0 <= i < |es| => es[i].rid)
  }

  predicate InRange(k: int, lo: int, loIn: bool, hi: int, hiIn: bool) {
    (if loIn then lo <= k else lo < k) && (if hiIn then k <= hi else k < hi)
  }

  /** Reference for a range scan: the entries in range, in order. */
  ghost function Select(es: seq<Entry>, lo: int, loIn: bool, hi: int, hiIn: bool): (r: seq<Entry>) {
    if es == [] then []
    else (if InRange(es[0].key, lo, loIn, hi, hiIn) then [es[0]] else []) + Select(es[1..], lo, loIn, hi, hiIn)
  }

  lemma {:induction false} SelectAll(es: seq<Entry>, lo: int, loIn: bool, hi: int, hiIn: bool)
    requires forall i | 0 <= i < |es| :: InRange(es[i].key, lo, loIn, hi, hiIn)
    ensures Select(es, lo, loIn, hi, hiIn) == es
  {
    if es != [] {
      SelectAll(es[1..], lo, loIn, hi, hiIn);
    }
  }

  lemma {:induction false} SelectNone(es: seq<Entry>, lo: int, loIn: bool, hi: int, hiIn: bool)
    requires forall i | 0 <= i < |es| :: !InRange(es[i].key, lo, loIn, hi, hiIn)
    ensures Select(es, lo, loIn, hi, hiIn) == []
  {
    if es != [] {
      SelectNone(es[1..], lo, loIn, hi, hiIn);
    }
  }

  lemma {:induction false} SelectJoin(a: seq<Entry>, b: seq<Entry>, lo: int, loIn: bool, hi: int, hiIn: bool)
    ensures Select(a + b, lo, loIn, hi, hiIn) == Select(a, lo, loIn, hi, hiIn) + Select(b, lo, loIn, hi, hiIn)
  {
    if a == [] {
      assert a + b == b;
    } else {
      assert (a + b)[1..] == a[1..] + b;
      SelectJoin(a[1..], b, lo, loIn, hi, hiIn);
      var first := if InRange(a[0].key, lo, loIn, hi, hiIn) then [a[0]] else [];
      Regroup(first, Select(a[1..], lo, loIn, hi, hiIn), Select(b, lo, loIn, hi, hiIn));
    }
  }

  lemma Regroup<T>(a: seq<T>, b: seq<T>, c: seq<T>)
    ensures a + b + c == a + (b + c)
  {}

  /** The entries between two cuts are exactly the entries in range. */
  lemma SelectSlice(es: seq<Entry>, lo: int, loIn: bool, hi: int, hiIn: bool, a: int, b: int)
    requires if loIn then CutBelow(es, lo, a) else CutAbove(es, lo, a)
    requires if hiIn then CutAbove(es, hi, b) else CutBelow(es, hi, b)
    requires a <= b
    ensures Select(es, lo, loIn, hi, hiIn) == es[a..b]
  {
    assert es == es[..a] + (es[a..b] + es[b..]);
    SelectJoin(es[..a], es[a..b] + es[b..], lo, loIn, hi, hiIn);
    SelectJoin(es[a..b], es[b..], lo, loIn, hi, hiIn);
    SelectNone(es[..a], lo, loIn, hi, hiIn);
    SelectAll(es[a..b], lo, loIn, hi, hiIn);
    SelectNone(es[b..], lo, loIn, hi, hiIn);
  }

  /** The cuts of a range that is not contradictory are in order. */
  lemma CutsOrdered(es: seq<Entry>, lo: int, loIn: bool, hi: int, hiIn: bool, a: int, b: int)
    requires if loIn then CutBelow(es, lo, a) else CutAbove(es, lo, a)
    requires if hiIn then CutAbove(es, hi, b) else CutBelow(es, hi, b)
    requires lo < hi || (lo == hi && (loIn || hiIn))
    ensures a <= b
  {
    if b < |es| {
      var k := es[b].key;
      assert if hiIn then hi < k else hi <= k;
    }
  }

  lemma RidsStep(es: seq<Entry>, a: int, p: int)
    requires 0 <= a <= p < |es|
    ensures RidsOf(es[a..p + 1]) == RidsOf(es[a..p]) + [es[p].rid]
  {
  }

  /** What a walk over the leaf ring relies on. */
  ghost predicate Walkable(t: Tree, g: Shape) {
    DomOk(t, g) && NodesOk(t, g) && LeavesOk(t, g) && RingOk(t, g)
  }

  /** An iterator between two cursors. */
  class IxScan {
    const ih: IxIndexHandle
    var iid: Iid
    const end: Iid

    ghost predicate Valid()
      reads this, ih
    {
      && Walkable(ih.T(), ih.g) && Cursor(ih.T(), ih.g, iid) && Cursor(ih.T(), ih.g, end)
      && PosOf(ih.T(), ih.g, iid) <= PosOf(ih.T(), ih.g, end)
    }

    /** Entries still to come. */
    ghost function Left(): (n: int)
      reads this, ih
      requires Valid()
    {
      PosOf(ih.T(), ih.g, end) - PosOf(ih.T(), ih.g, iid)
    }

    constructor (ih: IxIndexHandle, lower: Iid, upper: Iid)
      requires Walkable(ih.T(), ih.g) && Cursor(ih.T(), ih.g, lower) && Cursor(ih.T(), ih.g, upper)
      requires PosOf(ih.T(), ih.g, lower) <= PosOf(ih.T(), ih.g, upper)
      ensures Valid() && this.ih == ih && iid == lower && end == upper
    {
      this.ih, iid, end := ih, lower, upper;
    }

    method IsEnd() returns (b: bool)
      requires Valid()
      ensures b <==> Left() == 0
    {
      b := iid == end;
      if Left() == 0 {
        PosUnique(ih.T(), ih.g, iid, end);
      }
    }

    /** The rid under the cursor. */
    method Current() returns (r: Rid)
      requires Valid() && Left() > 0
      ensures PosOf(ih.T(), ih.g, iid) < |All(ih.T(), ih.g)|
      ensures r == All(ih.T(), ih.g)[PosOf(ih.T(), ih.g, iid)].rid
    {
      PosEntry(ih.T(), ih.g, iid);
      PosEntry(ih.T(), ih.g, end);
      r := ih.pages[iid.page].rids[iid.slot];
    }

    method Next()
      requires Valid() && Left() > 0
      modifies this`iid
      ensures Valid() && PosOf(ih.T(), ih.g, iid) == old(PosOf(ih.T(), ih.g, iid)) + 1
      ensures Left() == old(Left()) - 1
    {
      PosEntry(ih.T(), ih.g, iid);
      PosEntry(ih.T(), ih.g, end);
      ghost var c := iid;
      var size := |ih.pages[iid.page].keys|;
      if iid.page != ih.lastLeaf && iid.slot + 1 == size {
        iid := Iid(ih.pages[iid.page].next, 0);
      } else {
        iid := Iid(iid.page, iid.slot + 1);
      }
      PosNext(ih.T(), ih.g, c, iid);
    }

    /** Read the current rid and step on. */
    method Take() returns (r: Rid)
      requires Valid() && Left() > 0
      modifies this`iid
      ensures Valid() && PosOf(ih.T(), ih.g, iid) == old(PosOf(ih.T(), ih.g, iid)) + 1 <= |All(ih.T(), ih.g)|
      ensures r == All(ih.T(), ih.g)[PosOf(ih.T(), ih.g, iid) - 1].rid
    {
      r := Current();
      Next();
    }
  }

  /** Everything between two cursors, in order, and the walk ends. */
  method Collect(ih: IxIndexHandle, lower: Iid, upper: Iid) returns (out: seq<Rid>)
    requires Walkable(ih.T(), ih.g) && Cursor(ih.T(), ih.g, lower) && Cursor(ih.T(), ih.g, upper)
    requires PosOf(ih.T(), ih.g, lower) <= PosOf(ih.T(), ih.g, upper)
    ensures PosOf(ih.T(), ih.g, upper) <= |All(ih.T(), ih.g)|
    ensures out == RidsOf(All(ih.T(), ih.g)[PosOf(ih.T(), ih.g, lower)..PosOf(ih.T(), ih.g, upper)])
  {
    ghost var t, g := ih.T(), ih.g;
    ghost var es := All(t, g);
    ghost var a, b := PosOf(t, g, lower), PosOf(t, g, upper);
    PosEntry(t, g, upper);
    out := [];
    var scan := new IxScan(ih, lower, upper);
    ghost var p := a;
    while scan.iid != scan.end
      invariant scan.ih == ih && ih.T() == t && ih.g == g && scan.end == upper
      invariant Cursor(t, g, scan.iid) && p == PosOf(t, g, scan.iid) && a <= p <= b
      invariant out == RidsOf(es[a..p])
      decreases b - p
    {
      assert scan.Left() > 0 by { if p == b { PosUnique(t, g, scan.iid, upper); } }
      var r := scan.Take();
      RidsStep(es, a, p);
      out := out + [r];
      p := p + 1;
    }
  }

  /** A range scan returns exactly the rids of the keys in range, each once, in key order. */
  method RangeScan(ih: IxIndexHandle, lo: int, loIn: bool, hi: int, hiIn: bool) returns (out: seq<Rid>)
    requires ih.Valid()
    requires lo < hi || (lo == hi && (loIn || hiIn))
    ensures out == RidsOf(Select(All(ih.T(), ih.g), lo, loIn, hi, hiIn))
    ensures ghost var sel := Select(All(ih.T(), ih.g), lo, loIn, hi, hiIn);
      |out| == |sel| && forall i :: 0 <= i < |out| ==> out[i] == sel[i].rid
  {
    var lower, upper;
    if loIn { lower := ih.LowerBoundIid(lo); } else { lower := ih.UpperBoundIid(lo); }
    if hiIn { upper := ih.UpperBoundIid(hi); } else { upper := ih.LowerBoundIid(hi); }
    ghost var es := All(ih.T(), ih.g);
    ghost var a, b := PosOf(ih.T(), ih.g, lower), PosOf(ih.T(), ih.g, upper);
    CutsOrdered(es, lo, loIn, hi, hiIn, a, b);
    SelectSlice(es, lo, loIn, hi, hiIn, a, b);
    out := Collect(ih, lower, upper);
  }

  // ---------------------------------------------------------------- histories

  datatype IndexOp = Insert(key: int, rid: Rid) | Delete(key: int)

  /** The abstract map after a history: a key that is present refuses a second insert. */
  ghost function Replay(ops: seq<IndexOp>): (m: map<int, Rid>) {
    if ops == [] then map[] else After(Replay(ops[..|ops| - 1]), ops[|ops| - 1])
  }

  ghost function After(m: map<int, Rid>, op: IndexOp): (m': map<int, Rid>) {
    match op
    case Insert(k, r) => if k in m then m else m[k := r]
    case Delete(k) => m - {k}
  }

  /** The map of a history, key by key: a key is bound by the first insert since it was last deleted. */
  lemma ReplayMeans(ops: seq<IndexOp>, k: int)
    ensures ops == [] ==> k !in Replay(ops)
    ensures ops != [] ==>
      var was, now, op := Replay(ops[..|ops| - 1]), Replay(ops), ops[|ops| - 1];
      && (op == Delete(k) ==> k !in now)
      && (op.Insert? && op.key == k ==> k in now && now[k] == if k in was then was[k] else op.rid)
      && (op.key != k ==> (k in now <==> k in was) && (k in was ==> now[k] == was[k]))
  {}

  /** In range means what it says. */
  lemma InRangeMeans(k: int, lo: int, loIn: bool, hi: int, hiIn: bool)
    ensures InRange(k, lo, loIn, hi, hiIn) <==> (lo < k || (loIn && lo == k)) && (k < hi || (hiIn && k == hi))
  {}

  method Apply(ih: IxIndexHandle, op: IndexOp) returns (ok: bool)
    requires ih.Valid()
    modifies ih
    ensures ih.Valid() && ih.Map() == After(old(ih.Map()), op)
    ensures ok == (op.Insert? != (op.key in old(ih.Map())))
  {
    match op {
      case Insert(k, r) =>
        var page;
        ok, page := ih.InsertEntry(k, r);
      case Delete(k) => ok := ih.DeleteEntry(k);
    }
  }

  /** An insert says whether the key was new, a delete whether it was there. */
  ghost predicate Answers(ops: seq<IndexOp>, i: nat, ok: bool)
    requires i < |ops|
  {
    ok == (ops[i].Insert? != (ops[i].key in Replay(ops[..i])))
  }

  lemma AnswersSoFar(ops: seq<IndexOp>, n: nat, answers: seq<bool>)
    requires n <= |ops| && |answers| == n && forall i | 0 <= i < n :: Answers(ops[..n], i, answers[i])
    ensures forall i | 0 <= i < n :: Answers(ops, i, answers[i])
  {
    forall i | 0 <= i < n ensures Answers(ops, i, answers[i]) {
      assert Answers(ops[..n], i, answers[i]);
      assert ops[..n][..i] == ops[..i];
    }
  }

  /** From the empty index, every history of inserts and deletes refines the abstract map. */
  method RunHistory(order: int, ops: seq<IndexOp>) returns (ih: IxIndexHandle, answers: seq<bool>)
    requires order > 2
    ensures fresh(ih) && ih.Valid() && ih.Map() == Replay(ops)
    ensures |answers| == |ops|
    ensures forall i | 0 <= i < |ops| :: Answers(ops, i, answers[i])
  {
    if ops == [] {
      ih := new IxIndexHandle(order);
      answers := [];
    } else {
      var n := |ops| - 1;
      ih, answers := RunHistory(order, ops[..n]);
      AnswersSoFar(ops, n, answers);
      var ok := Apply(ih, ops[n]);
      answers := answers + [ok];
    }
  }
}
