/** A planned query run by the executors: scans over heap or index, block nested-loop joins, projection. */
module QueryExecution {
  import opened Rids
  import opened Sequences
  import opened Queries
  import opened Planner
  import X = BTreeIndex
  import I = IndexScan
  import R = IndexRange
  import J = BlockJoin
  import C = IndexChoice
  import T = JoinTree

  // ---------- tables as they are stored ----------

  /** The places of a table's rows in heap order, and the rows. */
  datatype Stored = Stored(heap: seq<Rid>, rows: I.Rows)

  type Storage = map<string, Stored>

  ghost predicate StoredOk(s: Stored)
  {
    NoDup(s.heap) && forall rid :: rid in s.heap <==> rid in s.rows
  }

  ghost predicate StorageOk(st: Storage)
  {
    forall t :: t in st ==> StoredOk(st[t])
  }

  function RowsOf(s: Stored): seq<Row>
  {
    seq(|s.heap|, i requires 0 <= i < |s.heap| => if s.heap[i] in s.rows then s.rows[s.heap[i]] else (_ => 0))
  }

  /** The rows of every table in heap order. */
  function View(st: Storage): Tables
  {
    map t | t in st :: RowsOf(st[t])
  }

  lemma ViewMeans(st: Storage, t: string, i: nat)
    requires StorageOk(st) && t in st && i < |st[t].heap|
    ensures t in View(st) && |View(st)[t]| == |st[t].heap|
    ensures st[t].heap[i] in st[t].rows && View(st)[t][i] == st[t].rows[st[t].heap[i]]
  {
    assert StoredOk(st[t]) && st[t].heap[i] in st[t].heap;
  }

  // ---------- plans as they are run ----------

  /** The open handle of an index and what it indexes. */
  datatype Access = Access(ih: X.IxIndexHandle, def: I.Def)

  datatype Physical =
    | SeqScan(tab: string, conds: seq<Cond>)
    | IxScan(tab: string, conds: seq<Cond>, access: Access)
    | BlockJoin(left: Physical, right: Physical, conds: seq<Cond>, capacity: nat)

  /** The plan without the choice of algorithms. */
  function Shape(p: Physical): Plan
  {
    match p
    case SeqScan(tab, conds) => Scan(tab, conds)
    case IxScan(tab, conds, _) => Scan(tab, conds)
    case BlockJoin(l, r, conds, _) => Join(Shape(l), Shape(r), conds)
  }

  ghost function Handles(p: Physical): set<object>
  {
    match p
    case SeqScan(_, _) => {}
    case IxScan(_, _, access) => {access.ih}
    case BlockJoin(l, r, _, _) => Handles(l) + Handles(r)
  }

  /** The index is on this table, its tree is in order and holds the keys of exactly the table's rows. */
  ghost predicate AccessOk(st: Storage, tab: string, conds: seq<Cond>, a: Access)
    reads a.ih
  {
    && tab in st && a.def.tab == tab && a.ih.Valid()
    && R.ValuesFit(tab, a.def.cols, a.def.sizes, conds) && I.RowsFit(a.def, st[tab].rows)
    && I.Agrees(a.def, st[tab].rows, a.ih.Map())
  }

  ghost predicate Runnable(st: Storage, p: Physical)
    reads Handles(p)
  {
    match p
    case SeqScan(tab, _) => true
    case IxScan(tab, conds, access) => AccessOk(st, tab, conds, access)
    case BlockJoin(l, r, _, capacity) => capacity >= 1 && Runnable(st, l) && Runnable(st, r)
  }

  // ---------- from places to positions ----------

  function PlaceOf(heap: seq<Rid>, rid: Rid): (i: nat)
    ensures rid in heap ==> i < |heap| && heap[i] == rid
  {
    if heap == [] || heap[0] == rid then 0 else 1 + PlaceOf(heap[1..], rid)
  }

  function PositionsOf(tab: string, heap: seq<Rid>, rids: seq<Rid>): seq<Env>
  {
    seq(|rids|, i requires 0 <= i < |rids| => map[tab := PlaceOf(heap, rids[i])])
  }

  /** A condition on the table's own columns reads the same on the row as in the plan. */
  lemma LocalMeets(st: Storage, tab: string, i: nat, conds: seq<Cond>)
    requires tab in st && StoredOk(st[tab]) && i < |st[tab].heap|
    requires forall k :: 0 <= k < |conds| ==> conds[k].Fits({tab})
    ensures st[tab].heap[i] in st[tab].rows
    ensures MeetsAll(View(st), map[tab := i], conds) <==> I.SatAll(st[tab].rows[st[tab].heap[i]], conds)
  {
    var e: Env := map[tab := i];
    var db, row := View(st), st[tab].rows[st[tab].heap[i]];
    assert InRange(db, e) && db[tab][i] == row;
    forall k | 0 <= k < |conds| ensures Meets(db, e, conds[k]) <==> I.Sat(row, conds[k]) {
      assert conds[k].Fits({tab}) && e.Keys == {tab};
    }
  }

  /** Rids of exactly the rows that satisfy the conditions are the plan's scan, in some order. */
  lemma ScanIs(st: Storage, tab: string, conds: seq<Cond>, rids: seq<Rid>)
    requires tab in st && StoredOk(st[tab]) && NoDup(rids)
    requires forall k :: 0 <= k < |conds| ==> conds[k].Fits({tab})
    requires forall rid :: rid in rids <==> rid in st[tab].rows && I.SatAll(st[tab].rows[rid], conds)
    ensures multiset(PositionsOf(tab, st[tab].heap, rids)) == multiset(Exec(View(st), Scan(tab, conds)))
  {
    var heap, out := st[tab].heap, PositionsOf(tab, st[tab].heap, rids);
    var plain := ScanRows(View(st), tab, conds, |heap|);
    ScanRowsIn(View(st), tab, conds, |heap|);
    PositionsOnce(tab, heap, rids);
    forall e: Env ensures e in out <==> e in plain {
      assert e in plain <==> e.Keys == {tab} && e[tab] < |heap| && MeetsAll(View(st), e, conds);
      RowFound(st, tab, conds, rids, e);
    }
    SameMembersSameBag(out, plain);
  }

  lemma RowFound(st: Storage, tab: string, conds: seq<Cond>, rids: seq<Rid>, e: Env)
    requires tab in st && StoredOk(st[tab])
    requires forall k :: 0 <= k < |conds| ==> conds[k].Fits({tab})
    requires forall rid :: rid in rids <==> rid in st[tab].rows && I.SatAll(st[tab].rows[rid], conds)
    ensures e in PositionsOf(tab, st[tab].heap, rids) <==>
      e.Keys == {tab} && e[tab] < |st[tab].heap| && MeetsAll(View(st), e, conds)
  {
    var heap, out := st[tab].heap, PositionsOf(tab, st[tab].heap, rids);
    if e in out {
      var i :| 0 <= i < |out| && out[i] == e;
      assert rids[i] in rids;
      LocalMeets(st, tab, PlaceOf(heap, rids[i]), conds);
    }
    if e.Keys == {tab} && e[tab] < |heap| && MeetsAll(View(st), e, conds) {
      assert e == map[tab := e[tab]];
      LocalMeets(st, tab, e[tab], conds);
      PlaceIs(heap, e[tab]);
      assert heap[e[tab]] in rids;
      var i :| 0 <= i < |rids| && rids[i] == heap[e[tab]];
      assert out[i] == e;
    }
  }

  lemma PlaceIs(heap: seq<Rid>, i: nat)
    requires NoDup(heap) && i < |heap|
    ensures PlaceOf(heap, heap[i]) == i
  {
    assert heap[i] in heap;
    var j := PlaceOf(heap, heap[i]);
    assert !(i < j) && !(j < i);
  }

  lemma PositionsOnce(tab: string, heap: seq<Rid>, rids: seq<Rid>)
    requires NoDup(rids) && forall rid :: rid in rids ==> rid in heap
    ensures NoDup(PositionsOf(tab, heap, rids))
  {
    var out := PositionsOf(tab, heap, rids);
    forall i, j | 0 <= i < j < |out| ensures out[i] != out[j] {
      assert rids[i] in rids && rids[j] in rids;
      assert out[i][tab] == PlaceOf(heap, rids[i]) && out[j][tab] == PlaceOf(heap, rids[j]);
    }
  }

  // ---------- a join of rearranged inputs is a rearranged join ----------

  lemma {:induction false} OnceIfBag<A>(a: seq<A>, b: seq<A>)
    requires NoDup(a) && multiset(a) == multiset(b)
    ensures NoDup(b) && forall x :: x in b <==> x in a
  {
    forall x ensures x in b <==> x in a {
      assert x in multiset(b) <==> x in multiset(a);
    }
    forall i, j | 0 <= i < j < |b| ensures b[i] != b[j] {
      CountOnce(a, b[i]);
      Twice(b, i, j);
    }
  }

  lemma Twice<A>(s: seq<A>, i: nat, j: nat)
    requires i < j < |s|
    ensures s[i] == s[j] ==> multiset(s)[s[i]] >= 2
  {
    assert s == s[..i] + [s[i]] + s[i + 1..j] + [s[j]] + s[j + 1..];
  }

  lemma JoinOfRearranged(db: Tables, ls: seq<Env>, rs: seq<Env>, p: Plan)
    requires p.Join? && Apart(p) && WellPlaced(p)
    requires multiset(ls) == multiset(Exec(db, p.left)) && multiset(rs) == multiset(Exec(db, p.right))
    ensures multiset(JoinRows(db, ls, rs, p.conds)) == multiset(Exec(db, p))
  {
    var l, r := Exec(db, p.left), Exec(db, p.right);
    ExecIs(db, p.left);
    ExecIs(db, p.right);
    OnceIfBag(l, ls);
    OnceIfBag(r, rs);
    JoinRowsIn(db, ls, rs, p.conds, Tabs(p.left), Tabs(p.right));
    JoinRowsIn(db, l, r, p.conds, Tabs(p.left), Tabs(p.right));
    forall e ensures Merged(e, ls, rs) <==> Merged(e, l, r) {}
    SameMembersSameBag(JoinRows(db, ls, rs, p.conds), Exec(db, p));
  }

  lemma MergeWithout(s: seq<(Env, Env)>, k: nat)
    requires k < |s|
    ensures multiset(J.Merge(s)) == multiset(J.Merge(s[..k] + s[k + 1..])) + multiset{s[k].0 + s[k].1}
  {
    RemoveOne(s, k);
    J.MergeJoin(s[..k], s[k + 1..]);
    J.MergeJoin(s[..k] + [s[k]], s[k + 1..]);
    J.MergeJoin(s[..k], [s[k]]);
    assert J.Merge([s[k]]) == [s[k].0 + s[k].1];
  }

  lemma {:induction false} MergeOfRearranged(a: seq<(Env, Env)>, b: seq<(Env, Env)>)
    requires multiset(a) == multiset(b)
    ensures multiset(J.Merge(a)) == multiset(J.Merge(b))
    decreases |a|
  {
    if a == [] {
      assert |multiset(b)| == 0;
    } else {
      var n := |a| - 1;
      assert a[n] in multiset(b);
      var k :| 0 <= k < |b| && b[k] == a[n];
      RemoveOne(a, n);
      RemoveOne(b, k);
      MergeOfRearranged(a[..n] + a[n + 1..], b[..k] + b[k + 1..]);
      MergeWithout(a, n);
      MergeWithout(b, k);
    }
  }

  // ---------- running a plan ----------

  twostate lemma HandlesAllocated(new p: Physical)
    ensures forall o :: o in Handles(p) ==> allocated(o)
  {}

  /** Whatever scans and block sizes the plan uses, its rows are those of the plan's meaning, each as often. */
  method Execute(st: Storage, p: Physical) returns (out: seq<Env>)
    requires StorageOk(st) && Runnable(st, p) && Apart(Shape(p)) && WellPlaced(Shape(p)) && Tabs(Shape(p)) <= st.Keys
    ensures multiset(out) == multiset(Exec(View(st), Shape(p)))
    decreases p, 0
  {
    match p
    case SeqScan(tab, conds) =>
      var s := st[tab];
      var rids := I.SeqScanAll(s.heap, s.rows, conds);
      I.PassingListed(s.heap, s.rows, conds);
      ScanIs(st, tab, conds, rids);
      return PositionsOf(tab, s.heap, rids);
    case IxScan(tab, conds, access) =>
      var s := st[tab];
      assert forall i :: 0 <= i < |conds| ==> conds[i].Fits({tab});
      var rids := I.IndexScanAll(access.ih, access.def, s.rows, conds);
      ScanIs(st, tab, conds, rids);
      return PositionsOf(tab, s.heap, rids);
    case BlockJoin(l, r, conds, capacity) =>
      HandlesAllocated(r);
      var ls := Execute(st, l);
      ghost var db := View(st);
      ExecIs(db, Shape(l));
      OnceIfBag(Exec(db, Shape(l)), ls);
      out := JoinByBlocks(st, ls, r, conds, capacity, Tabs(Shape(l)));
      JoinOfRearranged(db, ls, Exec(db, Shape(r)), Shape(p));
  }

  /** For every block of left rows the right side is run from its beginning. */
  method JoinByBlocks(st: Storage, ls: seq<Env>, r: Physical, conds: seq<Cond>, capacity: nat, ghost left: set<string>)
    returns (out: seq<Env>)
    requires StorageOk(st) && Runnable(st, r) && Apart(Shape(r)) && WellPlaced(Shape(r)) && Tabs(Shape(r)) <= st.Keys
    requires capacity >= 1 && NoDup(ls) && left !! Tabs(Shape(r)) && forall l :: l in ls ==> l.Keys == left
    ensures multiset(out) == multiset(JoinRows(View(st), ls, Exec(View(st), Shape(r)), conds))
    decreases r, 1
  {
    ghost var db, right := View(st), Exec(View(st), Shape(r));
    out := [];
    var at := 0;
    HandlesAllocated(r);
    while at < |ls|
      invariant at <= |ls| && Runnable(st, r)
      invariant multiset(out) == multiset(JoinRows(db, ls[..at], right, conds))
      decreases |ls| - at
    {
      HandlesAllocated(r);
      var next := J.BlockEnd(|ls|, at, capacity);
      var rs := Execute(st, r);
      if rs == [] {
        NothingOnTheRight(db, ls, at, rs, right, conds);
        return;
      }
      var block := RunBlockJoin(View(st), ls[at..next], rs, conds, capacity);
      BlockJoined(db, ls, at, next, rs, r, conds, left, out, block);
      out := out + block;
      at := next;
    }
    assert ls[..at] == ls;
  }

  lemma {:induction false} JoinRowsAppend(db: Tables, a: seq<Env>, b: seq<Env>, rs: seq<Env>, cs: seq<Cond>)
    ensures JoinRows(db, a + b, rs, cs) == JoinRows(db, a, rs, cs) + JoinRows(db, b, rs, cs)
    decreases |b|
  {
    if b == [] {
      assert a + b == a;
    } else {
      var front, l := b[..|b| - 1], b[|b| - 1];
      assert (a + b)[..|a + b| - 1] == a + front && (a + b)[|a + b| - 1] == l;
      JoinRowsAppend(db, a, front, rs, cs);
      Regroup(JoinRows(db, a, rs, cs), JoinRows(db, front, rs, cs), JoinOne(db, l, rs, cs));
    }
  }

  lemma Regroup<A>(a: seq<A>, b: seq<A>, c: seq<A>)
    ensures a + b + c == a + (b + c)
  {}

  lemma {:induction false} NothingToJoin(db: Tables, ls: seq<Env>, rs: seq<Env>, cs: seq<Cond>)
    requires rs == []
    ensures JoinRows(db, ls, rs, cs) == []
    decreases |ls|
  {
    if ls != [] {
      NothingToJoin(db, ls[..|ls| - 1], rs, cs);
    }
  }

  lemma NothingOnTheRight(db: Tables, ls: seq<Env>, at: nat, rs: seq<Env>, right: seq<Env>, cs: seq<Cond>)
    requires at <= |ls| && rs == [] && multiset(rs) == multiset(right)
    ensures JoinRows(db, ls[..at], right, cs) == JoinRows(db, ls, right, cs)
  {
    assert |right| == |multiset(right)|;
    NothingToJoin(db, ls, right, cs);
    NothingToJoin(db, ls[..at], right, cs);
  }

  lemma BlockJoined(db: Tables, ls: seq<Env>, at: nat, next: nat, rs: seq<Env>, r: Physical, conds: seq<Cond>,
                    left: set<string>, out: seq<Env>, block: seq<Env>)
    requires at <= next <= |ls| && NoDup(ls) && (forall l :: l in ls ==> l.Keys == left)
    requires Apart(Shape(r)) && WellPlaced(Shape(r)) && left !! Tabs(Shape(r))
    requires multiset(rs) == multiset(Exec(db, Shape(r)))
    requires multiset(out) == multiset(JoinRows(db, ls[..at], Exec(db, Shape(r)), conds))
    requires multiset(block) == multiset(JoinRows(db, ls[at..next], rs, conds))
    ensures multiset(out + block) == multiset(JoinRows(db, ls[..next], Exec(db, Shape(r)), conds))
  {
    var right := Exec(db, Shape(r));
    BlockOfRearranged(db, ls, at, next, rs, r, conds, left);
    JoinRowsAppend(db, ls[..at], ls[at..next], right, conds);
    assert ls[..at] + ls[at..next] == ls[..next];
    J.SameBags(out, block, JoinRows(db, ls[..at], right, conds), JoinRows(db, ls[at..next], right, conds));
  }

  lemma BlockOfRearranged(db: Tables, ls: seq<Env>, at: nat, next: nat, rs: seq<Env>, r: Physical, conds: seq<Cond>,
                          left: set<string>)
    requires at <= next <= |ls| && NoDup(ls) && (forall l :: l in ls ==> l.Keys == left)
    requires Apart(Shape(r)) && WellPlaced(Shape(r)) && left !! Tabs(Shape(r))
    requires multiset(rs) == multiset(Exec(db, Shape(r)))
    ensures multiset(JoinRows(db, ls[at..next], rs, conds)) ==
      multiset(JoinRows(db, ls[at..next], Exec(db, Shape(r)), conds))
  {
    var block, right := ls[at..next], Exec(db, Shape(r));
    ExecIs(db, Shape(r));
    OnceIfBag(right, rs);
    assert NoDup(block);
    JoinRowsIn(db, block, rs, conds, left, Tabs(Shape(r)));
    JoinRowsIn(db, block, right, conds, left, Tabs(Shape(r)));
    forall e ensures Merged(e, block, rs) <==> Merged(e, block, right) {}
    SameMembersSameBag(JoinRows(db, block, rs, conds), JoinRows(db, block, right, conds));
  }

  method RunBlockJoin(db: Tables, ls: seq<Env>, rs: seq<Env>, conds: seq<Cond>, capacity: nat) returns (out: seq<Env>)
    requires capacity >= 1
    ensures multiset(out) == multiset(JoinRows(db, ls, rs, conds))
  {
    var meets := (l: Env, r: Env) => MeetsAll(db, l + r, conds);
    var pairs := J.JoinIsNestedLoops(meets, ls, rs, capacity);
    MergeOfRearranged(pairs, J.Pairs(meets, ls, rs));
    J.PairsAreJoinRows(db, ls, rs, conds, meets);
    out := J.Merge(pairs);
  }

  // ---------- from the query to its rows ----------

  type Catalog = map<string, seq<Access>>

  ghost function OpenHandles(cat: Catalog): set<object>
  {
    set t, i | t in cat && 0 <= i < |cat[t]| :: cat[t][i].ih
  }

  /** Every index of every table is right, and the query compares its columns with values they can have. */
  ghost predicate CatalogOk(st: Storage, cat: Catalog, conds: seq<Cond>)
    reads OpenHandles(cat)
  {
    forall t, i :: t in cat && 0 <= i < |cat[t]| ==>
      cat[t][i].ih in OpenHandles(cat) && AccessOk(st, t, conds, cat[t][i])
  }

  ghost predicate ValueCondsFrom(cs: seq<Cond>, conds: seq<Cond>)
  {
    forall i :: 0 <= i < |cs| && cs[i].isVal ==> cs[i] in conds
  }

  lemma FewerValuesFit(tab: string, cols: seq<string>, sizes: seq<nat>, cs: seq<Cond>, conds: seq<Cond>)
    requires R.ValuesFit(tab, cols, sizes, conds) && ValueCondsFrom(cs, conds)
    ensures R.ValuesFit(tab, cols, sizes, cs)
  {
    forall k | 0 <= k < |cs| ensures R.ValueFits(tab, cols, sizes, cs[k]) {
      if cs[k].isVal {
        var m :| 0 <= m < |conds| && conds[m] == cs[k];
        assert R.ValueFits(tab, cols, sizes, conds[m]);
      }
    }
  }

  lemma ValueCondsKept(tables: seq<string>, cs: seq<Cond>, conds: seq<Cond>)
    requires Bag(tables, cs) == Bag(tables, conds)
    ensures ValueCondsFrom(cs, conds)
  {
    forall i | 0 <= i < |cs| && cs[i].isVal ensures cs[i] in conds {
      assert NormAll(tables, cs)[i] == cs[i] && cs[i] in Bag(tables, cs);
      var k :| 0 <= k < |conds| && NormAll(tables, conds)[k] == cs[i];
    }
  }

  /** Chooses an access path for each scan and a block size for each join. */
  method ChoosePaths(st: Storage, cat: Catalog, p: Plan, capacity: Plan -> nat, ghost conds: seq<Cond>)
    returns (q: Physical)
    requires CatalogOk(st, cat, conds) && ValueCondsFrom(AllConds(p), conds) && forall j :: capacity(j) >= 1
    ensures Shape(q) == p && Runnable(st, q)
    decreases p
  {
    match p
    case Scan(tab, cs) =>
      var paths := if tab in cat then cat[tab] else [];
      var found, best := C.GetIndexCols(tab, seq(|paths|, i requires 0 <= i < |paths| => paths[i].def.cols), cs);
      if !found {
        return SeqScan(tab, cs);
      }
      var a := paths[best];
      assert AccessOk(st, tab, conds, a);
      FewerValuesFit(tab, a.def.cols, a.def.sizes, cs, conds);
      return IxScan(tab, cs, a);
    case Join(l, r, cs) =>
      assert AllConds(p) == AllConds(l) + AllConds(r) + cs;
      CondsOfParts(AllConds(l), AllConds(r), cs, conds);
      var left := ChoosePaths(st, cat, l, capacity, conds);
      HandlesAllocated(left);
      var right := ChoosePaths(st, cat, r, capacity, conds);
      return BlockJoin(left, right, cs, capacity(p));
  }

  lemma CondsOfParts(a: seq<Cond>, b: seq<Cond>, c: seq<Cond>, conds: seq<Cond>)
    requires ValueCondsFrom(a + b + c, conds)
    ensures ValueCondsFrom(a, conds) && ValueCondsFrom(b, conds)
  {
    var s := a + b + c;
    assert forall i :: 0 <= i < |a| ==> a[i] == s[i];
    assert forall i :: 0 <= i < |b| ==> b[i] == s[|a| + i];
  }

  datatype Answer = Rows(values: seq<seq<int>>) | NoJoinExecutor

  /** From the conditions of a query to the values it prints: planned, run with whatever indexes there are and
      whatever block sizes, and projected, it returns the filtered cross product, each row as often. */
  method RunQuery(st: Storage, cat: Catalog, tables: seq<string>, conds: seq<Cond>, cols: seq<TabCol>,
                  capacity: Plan -> nat, nestedLoop: bool, sortMerge: bool) returns (answer: Answer)
    requires StorageOk(st) && ValidQuery(tables, conds) && SetOf(tables) <= st.Keys && CatalogOk(st, cat, conds)
    requires WithinFirst(tables, conds) && forall j :: capacity(j) >= 1
    ensures answer.NoJoinExecutor? <==> !nestedLoop && !sortMerge && HasJoinCond(tables, conds)
    ensures answer.Rows? ==> var db := View(st);
      multiset(answer.values) == multiset(ProjectAll(db, Filter(db, Cross(db, tables), conds), cols))
  {
    var planned := T.MakeOneRel(tables, conds, nestedLoop, sortMerge);
    if planned.NoJoinExecutor? {
      return NoJoinExecutor;
    }
    var plan := planned.plan;
    ValueCondsKept(tables, AllConds(plan), conds);
    var physical := ChoosePaths(st, cat, plan, capacity, conds);
    var out := Execute(st, physical);
    T.PlanPreservesQuery(View(st), tables, conds, cols, plan);
    SameBagSameProjection(View(st), out, Exec(View(st), plan), cols);
    return Rows(ProjectAll(View(st), out, cols));
  }
}
