/** Pushing conditions down and building the join tree. */
module Planner {
  import opened Sequences
  import opened Queries

  // ---------- a query as the analyzer hands it over ----------

  predicate ValidCond(tables: seq<string>, c: Cond)
  {
    c.lhs.tab in tables && if c.isVal then c.rhs.tab == "" else c.rhs.tab in tables
  }

  ghost predicate ValidQuery(tables: seq<string>, conds: seq<Cond>)
  {
    && tables != [] && NoDup(tables) && "" !in tables
    && forall i :: 0 <= i < |conds| ==> ValidCond(tables, conds[i])
  }

  /** Compares columns of two different tables. */
  predicate CrossTable(tables: seq<string>, c: Cond)
  {
    !c.isVal && c.lhs.tab in tables && c.rhs.tab in tables && c.lhs.tab != c.rhs.tab
  }

  ghost predicate AllCross(tables: seq<string>, conds: seq<Cond>)
  {
    forall i :: 0 <= i < |conds| ==> CrossTable(tables, conds[i])
  }

  ghost predicate HasJoinCond(tables: seq<string>, conds: seq<Cond>)
  {
    exists i :: 0 <= i < |conds| && CrossTable(tables, conds[i])
  }

  // ---------- conditions counted up to swapping their sides ----------

  function Pos(tables: seq<string>, t: string): nat
    decreases |tables|
  {
    if tables == [] then 0 else if tables[0] == t then 0 else 1 + Pos(tables[1..], t)
  }

  lemma {:induction false} PosIs(tables: seq<string>, t: string)
    requires t in tables
    ensures Pos(tables, t) < |tables| && tables[Pos(tables, t)] == t
    decreases |tables|
  {
    if tables[0] != t {
      PosIs(tables[1..], t);
    }
  }

  /** The side whose table comes first in the query is written first. */
  function Norm(tables: seq<string>, c: Cond): Cond
  {
    if !c.isVal && Pos(tables, c.rhs.tab) < Pos(tables, c.lhs.tab) then Swapped(c) else c
  }

  function NormAll(tables: seq<string>, cs: seq<Cond>): seq<Cond>
  {
    seq(|cs|, i requires 0 <= i < |cs| => Norm(tables, cs[i]))
  }

  function Bag(tables: seq<string>, cs: seq<Cond>): multiset<Cond>
  {
    multiset(NormAll(tables, cs))
  }

  lemma BagJoin(tables: seq<string>, a: seq<Cond>, b: seq<Cond>)
    ensures Bag(tables, a + b) == Bag(tables, a) + Bag(tables, b)
  {
    assert NormAll(tables, a + b) == NormAll(tables, a) + NormAll(tables, b);
  }

  lemma BagOne(tables: seq<string>, c: Cond)
    ensures Bag(tables, [c]) == multiset{Norm(tables, c)}
  {
    assert NormAll(tables, [c]) == [Norm(tables, c)];
  }

  lemma SwapKeepsNorm(tables: seq<string>, c: Cond)
    requires CrossTable(tables, c)
    ensures Norm(tables, Swapped(c)) == Norm(tables, c)
  {
    PosIs(tables, c.lhs.tab);
    PosIs(tables, c.rhs.tab);
    assert Swapped(Swapped(c)) == c;
  }

  lemma BagMeets(db: Tables, e: Env, tables: seq<string>, cs: seq<Cond>)
    ensures MeetsAll(db, e, cs) <==> forall c :: c in Bag(tables, cs) ==> Meets(db, e, c)
  {
    var ns := NormAll(tables, cs);
    forall i | 0 <= i < |cs| ensures Meets(db, e, ns[i]) <==> Meets(db, e, cs[i]) {
      if !cs[i].isVal {
        SwapMeansSame(db, e, cs[i]);
      }
    }
    forall i | 0 <= i < |cs| ensures ns[i] in Bag(tables, cs) {}
    if MeetsAll(db, e, cs) {
      forall c | c in Bag(tables, cs) ensures Meets(db, e, c) {
        var i :| 0 <= i < |ns| && ns[i] == c;
      }
    }
  }

  // ---------- pop_conds ----------

  /** The scan of `tab` takes value conditions on it and any condition within a single table. */
  predicate Takes(tab: string, c: Cond)
  {
    (tab == c.lhs.tab && c.isVal) || c.lhs.tab == c.rhs.tab
  }

  function Taken(tab: string, cs: seq<Cond>): seq<Cond>
  {
    if cs == [] then []
    else Taken(tab, cs[..|cs| - 1]) + if Takes(tab, cs[|cs| - 1]) then [cs[|cs| - 1]] else []
  }

  function Kept(tab: string, cs: seq<Cond>): seq<Cond>
  {
    if cs == [] then []
    else Kept(tab, cs[..|cs| - 1]) + if Takes(tab, cs[|cs| - 1]) then [] else [cs[|cs| - 1]]
  }

  /** Nothing is lost, nothing is taken twice, and each condition goes where it belongs. */
  lemma {:induction false} TakenAndKept(tab: string, cs: seq<Cond>)
    ensures multiset(Taken(tab, cs)) + multiset(Kept(tab, cs)) == multiset(cs)
    ensures forall c :: c in Taken(tab, cs) <==> c in cs && Takes(tab, c)
    ensures forall c :: c in Kept(tab, cs) <==> c in cs && !Takes(tab, c)
  {
    if cs != [] {
      var n := |cs| - 1;
      TakenAndKept(tab, cs[..n]);
      assert cs == cs[..n] + [cs[n]];
    }
  }

  lemma PopNext(tab: string, cs: seq<Cond>, k: nat)
    requires k < |cs|
    ensures Taken(tab, cs[..k + 1]) == Taken(tab, cs[..k]) + if Takes(tab, cs[k]) then [cs[k]] else []
    ensures Kept(tab, cs[..k + 1]) == Kept(tab, cs[..k]) + if Takes(tab, cs[k]) then [] else [cs[k]]
    ensures Kept(tab, cs[..k]) + cs[k..] == Kept(tab, cs[..k]) + [cs[k]] + cs[k + 1..]
  {
    assert cs[..k + 1][..k] == cs[..k];
    assert cs[k..] == [cs[k]] + cs[k + 1..];
  }

  lemma DropAt(front: seq<Cond>, c: Cond, back: seq<Cond>, all: seq<Cond>)
    requires all == front + [c] + back
    ensures all[|front|] == c && all[..|front|] + all[|front| + 1..] == front + back
  {}

  method PopConds(conds: seq<Cond>, tab: string) returns (solved: seq<Cond>, rest: seq<Cond>)
    ensures solved == Taken(tab, conds) && rest == Kept(tab, conds)
  {
    solved, rest := [], conds;
    var it := 0;
    ghost var k := 0;
    while it < |rest|
      invariant 0 <= k <= |conds| && it == |Kept(tab, conds[..k])|
      invariant solved == Taken(tab, conds[..k]) && rest == Kept(tab, conds[..k]) + conds[k..]
      decreases |rest| - it
    {
      PopNext(tab, conds, k);
      DropAt(Kept(tab, conds[..k]), conds[k], conds[k + 1..], rest);
      if Takes(tab, rest[it]) {
        solved := solved + [rest[it]];
        rest := rest[..it] + rest[it + 1..];
      } else {
        it := it + 1;
      }
      k := k + 1;
    }
    assert conds[..k] == conds;
  }

  // ---------- push_conds ----------

  datatype Pushed = Pushed(code: nat, plan: Plan)

  /** 0: neither side is below; 1: the left side is; 2: the right side is; 3: the condition has been placed. */
  function PushConds(c: Cond, p: Plan): Pushed
  {
    match p
    case Scan(tab, _) => Pushed(if tab == c.lhs.tab then 1 else if tab == c.rhs.tab then 2 else 0, p)
    case Join(left, right, conds) =>
      var l := PushConds(c, left);
      if l.code == 3 then Pushed(3, Join(l.plan, right, conds))
      else
        var r := PushConds(c, right);
        if r.code == 3 then Pushed(3, Join(l.plan, r.plan, conds))
        else if l.code == 0 || r.code == 0 then Pushed(l.code + r.code, Join(l.plan, r.plan, conds))
        else Pushed(3, Join(l.plan, r.plan, conds + [if l.code == 2 then Swapped(c) else c]))
  }

  /** Each join condition compares a column from the left with one from the right. */
  ghost predicate Oriented(p: Plan)
  {
    p.Join? ==>
      && Oriented(p.left) && Oriented(p.right)
      && forall i :: 0 <= i < |p.conds| ==>
        !p.conds[i].isVal && p.conds[i].lhs.tab in Tabs(p.left) && p.conds[i].rhs.tab in Tabs(p.right)
  }

  lemma {:induction false} PushConds_Code(c: Cond, p: Plan)
    requires c.lhs.tab != c.rhs.tab && Apart(p)
    ensures var r := PushConds(c, p);
      && r.code == (if c.lhs.tab in Tabs(p) then 1 else 0) + (if c.rhs.tab in Tabs(p) then 2 else 0)
      && Tabs(r.plan) == Tabs(p) && Apart(r.plan)
      && (r.code < 3 ==> r.plan == p)
  {
    if p.Join? {
      PushConds_Code(c, p.left);
      PushConds_Code(c, p.right);
    }
  }

  lemma {:induction false} PushConds_Placed(c: Cond, p: Plan)
    requires !c.isVal && c.lhs.tab != c.rhs.tab && Apart(p) && Oriented(p)
    ensures var r := PushConds(c, p); Oriented(r.plan) && (WellPlaced(r.plan) <==> WellPlaced(p))
  {
    if p.Join? {
      PushConds_Placed(c, p.left);
      PushConds_Placed(c, p.right);
      PushConds_Code(c, p.left);
      PushConds_Code(c, p.right);
    }
  }

  /** The condition is added once, somewhere, possibly with its sides swapped. */
  lemma {:induction false} PushConds_Bag(tables: seq<string>, c: Cond, p: Plan)
    requires CrossTable(tables, c) && Apart(p)
    ensures var r := PushConds(c, p);
      Bag(tables, AllConds(r.plan)) ==
        Bag(tables, AllConds(p)) + if r.code == 3 then multiset{Norm(tables, c)} else multiset{}
  {
    if p.Join? {
      var l, r := PushConds(c, p.left), PushConds(c, p.right);
      PushConds_Bag(tables, c, p.left);
      PushConds_Bag(tables, c, p.right);
      PushConds_Code(c, p.left);
      PushConds_Code(c, p.right);
      SwapKeepsNorm(tables, c);
      var d := if l.code == 2 then Swapped(c) else c;
      JoinBag(tables, p.left, p.right, p.conds);
      JoinBag(tables, l.plan, p.right, p.conds);
      JoinBag(tables, l.plan, r.plan, p.conds);
      JoinBag(tables, l.plan, r.plan, p.conds + [d]);
      BagJoin(tables, p.conds, [d]);
      BagOne(tables, d);
    }
  }

  lemma JoinBag(tables: seq<string>, l: Plan, r: Plan, cs: seq<Cond>)
    ensures Bag(tables, AllConds(Join(l, r, cs))) ==
      Bag(tables, AllConds(l)) + Bag(tables, AllConds(r)) + Bag(tables, cs)
  {
    BagJoin(tables, AllConds(l), AllConds(r));
    BagJoin(tables, AllConds(l) + AllConds(r), cs);
  }

  // ---------- the scans ----------

  function Shares(tables: seq<string>, scans: seq<Plan>): seq<multiset<Cond>>
  {
    seq(|scans|, i requires 0 <= i < |scans| => Bag(tables, scans[i].conds))
  }

  /** The conditions of those among the first `n` scans that are not yet in the tree. */
  function Pool(shares: seq<multiset<Cond>>, marks: seq<int>, n: nat): multiset<Cond>
    requires n <= |shares| == |marks|
  {
    if n == 0 then multiset{}
    else if marks[n - 1] == -1 then Pool(shares, marks, n - 1) + shares[n - 1]
    else Pool(shares, marks, n - 1)
  }

  lemma {:induction false} PoolSame(shares: seq<multiset<Cond>>, marks: seq<int>, more: seq<multiset<Cond>>,
                                    marks': seq<int>, n: nat)
    requires n <= |shares| == |marks| == |more| == |marks'|
    requires forall i :: 0 <= i < n ==> shares[i] == more[i] && marks[i] == marks'[i]
    ensures Pool(shares, marks, n) == Pool(more, marks', n)
  {
    if n > 0 {
      PoolSame(shares, marks, more, marks', n - 1);
    }
  }

  lemma {:induction false} PoolTake(shares: seq<multiset<Cond>>, marks: seq<int>, i: nat, n: nat)
    requires i < n <= |shares| == |marks| && marks[i] == -1
    ensures Pool(shares, marks, n) == Pool(shares, marks[i := 1], n) + shares[i]
  {
    var marks' := marks[i := 1];
    if i == n - 1 {
      PoolSame(shares, marks, shares, marks', i);
    } else {
      PoolTake(shares, marks, i, n - 1);
    }
  }

  lemma {:induction false} PoolEmpty(shares: seq<multiset<Cond>>, marks: seq<int>, n: nat)
    requires n <= |shares| == |marks| && forall i :: 0 <= i < n ==> marks[i] != -1
    ensures Pool(shares, marks, n) == multiset{}
  {
    if n > 0 {
      PoolEmpty(shares, marks, n - 1);
    }
  }

  /** Conditions within one table all name the first one. */
  ghost predicate WithinFirst(tables: seq<string>, conds: seq<Cond>)
    requires tables != []
  {
    forall i :: 0 <= i < |conds| && !conds[i].isVal && conds[i].lhs.tab == conds[i].rhs.tab ==>
      conds[i].lhs.tab == tables[0]
  }

  ghost predicate ScansOk(tables: seq<string>, scans: seq<Plan>)
  {
    && |scans| == |tables|
    && (forall i :: 0 <= i < |scans| ==> scans[i].Scan? && scans[i].tab == tables[i])
    && (forall i :: 1 <= i < |scans| ==> WellPlaced(scans[i]))
  }

  function Unmarked(n: nat): seq<int>
  {
    seq(n, _ => -1)
  }

  lemma ScanAccount(tables: seq<string>, scans: seq<Plan>, conds: seq<Cond>, i: nat)
    requires i < |tables| == |scans|
    ensures var scans' := scans[i := Scan(tables[i], Taken(tables[i], conds))];
      Pool(Shares(tables, scans'), Unmarked(|tables|), i + 1) + Bag(tables, Kept(tables[i], conds)) ==
        Pool(Shares(tables, scans), Unmarked(|tables|), i) + Bag(tables, conds)
  {
    var scans' := scans[i := Scan(tables[i], Taken(tables[i], conds))];
    PopKeepsBag(tables, conds, tables[i]);
    PoolSame(Shares(tables, scans), Unmarked(|tables|), Shares(tables, scans'), Unmarked(|tables|), i);
    assert Shares(tables, scans')[i] == Bag(tables, Taken(tables[i], conds));
  }

  /** The first `i` scans are made; all but the first can evaluate what they took. */
  ghost predicate ScansMade(tables: seq<string>, all: seq<Cond>, scans: seq<Plan>, i: nat)
    requires tables != []
  {
    && |scans| == |tables| && i <= |tables|
    && (forall j :: 0 <= j < i ==> scans[j].Scan? && scans[j].tab == tables[j])
    && (forall j :: 1 <= j < i ==> WellPlaced(scans[j]))
    && (i > 0 ==> (WellPlaced(scans[0]) <==> WithinFirst(tables, all)))
  }

  lemma ScanMade(tables: seq<string>, all: seq<Cond>, scans: seq<Plan>, conds: seq<Cond>, i: nat)
    requires ValidQuery(tables, all) && i < |tables| && ScansMade(tables, all, scans, i)
    requires Remaining(tables, conds, i) && (i == 0 ==> conds == all)
    ensures ScansMade(tables, all, scans[i := Scan(tables[i], Taken(tables[i], conds))], i + 1)
  {
    if i == 0 {
      FirstScan(tables, all);
    } else {
      LaterScan(tables, conds, i);
    }
  }

  method ScanTables(tables: seq<string>, all: seq<Cond>) returns (scans: seq<Plan>, conds: seq<Cond>)
    requires ValidQuery(tables, all)
    ensures ScansOk(tables, scans) && AllCross(tables, conds) && (conds != [] <==> HasJoinCond(tables, all))
    ensures WellPlaced(scans[0]) <==> WithinFirst(tables, all)
    ensures Pool(Shares(tables, scans), Unmarked(|tables|), |tables|) + Bag(tables, conds) == Bag(tables, all)
  {
    var filler := Scan("", []);
    scans, conds := seq(|tables|, _ => filler), all;
    for i := 0 to |tables|
      invariant ScansMade(tables, all, scans, i)
      invariant Pool(Shares(tables, scans), Unmarked(|tables|), i) + Bag(tables, conds) == Bag(tables, all)
      invariant Remaining(tables, conds, i) && JoinCondsStay(tables, all, conds)
      invariant i == 0 ==> conds == all
    {
      var solved, rest := PopConds(conds, tables[i]);
      PopLeaves(tables, conds, i);
      JoinCondsKept(tables, all, conds, tables[i]);
      ScanAccount(tables, scans, conds, i);
      ScanMade(tables, all, scans, conds, i);
      scans := scans[i := Scan(tables[i], solved)];
      conds := rest;
    }
    NoneLeft(tables, conds);
    JoinCondsAreLeft(tables, all, conds);
  }

  /** Scans take no condition between two tables. */
  ghost predicate JoinCondsStay(tables: seq<string>, all: seq<Cond>, conds: seq<Cond>)
  {
    && (forall c :: c in conds ==> c in all)
    && (forall c :: c in all && CrossTable(tables, c) ==> c in conds)
  }

  lemma JoinCondsKept(tables: seq<string>, all: seq<Cond>, conds: seq<Cond>, tab: string)
    requires JoinCondsStay(tables, all, conds)
    ensures JoinCondsStay(tables, all, Kept(tab, conds))
  {
    TakenAndKept(tab, conds);
  }

  lemma JoinCondsAreLeft(tables: seq<string>, all: seq<Cond>, conds: seq<Cond>)
    requires JoinCondsStay(tables, all, conds) && AllCross(tables, conds)
    ensures conds != [] <==> HasJoinCond(tables, all)
  {
    if conds != [] {
      assert CrossTable(tables, conds[0]) && conds[0] in all;
    }
    if HasJoinCond(tables, all) {
      var i :| 0 <= i < |all| && CrossTable(tables, all[i]);
      assert all[i] in conds;
    }
  }

  lemma PopKeepsBag(tables: seq<string>, cs: seq<Cond>, tab: string)
    ensures Bag(tables, Taken(tab, cs)) + Bag(tables, Kept(tab, cs)) == Bag(tables, cs)
    decreases |cs|
  {
    if cs != [] {
      var n := |cs| - 1;
      PopKeepsBag(tables, cs[..n], tab);
      assert cs == cs[..n] + [cs[n]];
      BagJoin(tables, cs[..n], [cs[n]]);
      BagJoin(tables, Taken(tab, cs[..n]), [cs[n]]);
      BagJoin(tables, Kept(tab, cs[..n]), [cs[n]]);
      assert Taken(tab, cs[..n]) + [] == Taken(tab, cs[..n]);
      assert Kept(tab, cs[..n]) + [] == Kept(tab, cs[..n]);
    }
  }

  /** What the first `i` scans have left behind. */
  ghost predicate Remaining(tables: seq<string>, conds: seq<Cond>, i: nat)
    requires i <= |tables|
  {
    forall c :: c in conds ==> LeftBehind(tables, c, i)
  }

  ghost predicate LeftBehind(tables: seq<string>, c: Cond, i: nat)
    requires i <= |tables|
  {
    && ValidCond(tables, c)
    && (i > 0 ==> c.lhs.tab != c.rhs.tab)
    && (c.isVal ==> c.lhs.tab !in tables[..i])
  }

  lemma PopLeaves(tables: seq<string>, conds: seq<Cond>, i: nat)
    requires i < |tables| && Remaining(tables, conds, i)
    ensures Remaining(tables, Kept(tables[i], conds), i + 1)
  {
    TakenAndKept(tables[i], conds);
    forall c | c in Kept(tables[i], conds) ensures LeftBehind(tables, c, i + 1) {
      assert LeftBehind(tables, c, i);
      assert tables[..i + 1] == tables[..i] + [tables[i]];
    }
  }

  lemma NoneLeft(tables: seq<string>, conds: seq<Cond>)
    requires tables != [] && Remaining(tables, conds, |tables|)
    ensures AllCross(tables, conds)
  {
    assert tables[..|tables|] == tables;
    forall i | 0 <= i < |conds| ensures CrossTable(tables, conds[i]) {
      assert LeftBehind(tables, conds[i], |tables|);
    }
  }

  lemma FirstScan(tables: seq<string>, all: seq<Cond>)
    requires ValidQuery(tables, all)
    ensures WellPlaced(Scan(tables[0], Taken(tables[0], all))) <==> WithinFirst(tables, all)
  {
    var cs := Taken(tables[0], all);
    TakenAndKept(tables[0], all);
    if WithinFirst(tables, all) {
      forall i | 0 <= i < |cs| ensures cs[i].Fits({tables[0]}) {
        assert cs[i] in all;
      }
    }
    if WellPlaced(Scan(tables[0], cs)) {
      forall i | 0 <= i < |all| && !all[i].isVal && all[i].lhs.tab == all[i].rhs.tab
        ensures all[i].lhs.tab == tables[0]
      {
        assert all[i] in cs;
        assert all[i].Fits({tables[0]});
      }
    }
  }

  lemma LaterScan(tables: seq<string>, conds: seq<Cond>, i: nat)
    requires 0 < i < |tables| && Remaining(tables, conds, i)
    ensures WellPlaced(Scan(tables[i], Taken(tables[i], conds)))
  {
    var cs := Taken(tables[i], conds);
    TakenAndKept(tables[i], conds);
    forall j | 0 <= j < |cs| ensures cs[j].Fits({tables[i]}) {
      assert LeftBehind(tables, cs[j], i);
    }
  }
}
