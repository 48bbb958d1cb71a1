/** The loops of make_one_rel that turn scans and cross-table conditions into one join tree. */
module JoinTree {
  import opened Sequences
  import opened Queries
  import opened Planner

  // ---------- part of a tree ----------

  ghost predicate SubTree(tables: seq<string>, scans: seq<Plan>, p: Plan)
    requires tables != [] && scans != []
  {
    && Apart(p) && Oriented(p) && Tabs(p) <= SetOf(tables)
    && (WellPlaced(p) <==> (tables[0] in Tabs(p) ==> WellPlaced(scans[0])))
  }

  lemma LeafSubTree(tables: seq<string>, scans: seq<Plan>, i: nat)
    requires tables != [] && NoDup(tables) && ScansOk(tables, scans) && i < |scans|
    ensures SubTree(tables, scans, scans[i])
  {}

  /** The conditions of a new join compare the left part with the right part. */
  ghost predicate Across(l: Plan, r: Plan, cs: seq<Cond>)
  {
    forall i :: 0 <= i < |cs| ==> !cs[i].isVal && cs[i].lhs.tab in Tabs(l) && cs[i].rhs.tab in Tabs(r)
  }

  lemma JoinSubTrees(tables: seq<string>, scans: seq<Plan>, l: Plan, r: Plan, cs: seq<Cond>)
    requires tables != [] && scans != [] && SubTree(tables, scans, l) && SubTree(tables, scans, r)
    requires Tabs(l) !! Tabs(r) && Across(l, r, cs)
    ensures SubTree(tables, scans, Join(l, r, cs))
  {}

  lemma PushSubTree(tables: seq<string>, scans: seq<Plan>, p: Plan, c: Cond)
    requires tables != [] && scans != [] && SubTree(tables, scans, p) && CrossTable(tables, c)
    ensures SubTree(tables, scans, PushConds(c, p).plan) && Tabs(PushConds(c, p).plan) == Tabs(p)
  {
    PushConds_Code(c, p);
    PushConds_Placed(c, p);
  }

  // ---------- the state of the loops ----------

  /** `marks` is scantbl: -1 for a table still to be joined. */
  datatype Work = Work(marks: seq<int>, joined: seq<string>, plan: Plan)

  ghost predicate MarksOk(tables: seq<string>, marks: seq<int>, within: set<string>)
  {
    |marks| == |tables| && forall i :: 0 <= i < |tables| ==> (marks[i] == -1 <==> tables[i] !in within)
  }

  ghost predicate JoinedOk(tables: seq<string>, joined: seq<string>, within: set<string>)
  {
    forall t :: t in tables ==> (t in joined <==> t in within)
  }

  /** Every condition is in the tree, in a scan still to come, or still to be placed. */
  ghost predicate Accounted(tables: seq<string>, scans: seq<Plan>, marks: seq<int>, placed: multiset<Cond>,
                            rest: seq<Cond>, all: multiset<Cond>)
  {
    && |scans| == |tables| == |marks|
    && placed + Pool(Shares(tables, scans), marks, |tables|) + Bag(tables, rest) == all
  }

  ghost predicate Building(tables: seq<string>, scans: seq<Plan>, w: Work, rest: seq<Cond>, all: multiset<Cond>)
  {
    && tables != [] && NoDup(tables) && ScansOk(tables, scans)
    && SubTree(tables, scans, w.plan) && MarksOk(tables, w.marks, Tabs(w.plan))
    && Accounted(tables, scans, w.marks, Bag(tables, AllConds(w.plan)), rest, all)
  }

  method PopScan(tables: seq<string>, scans: seq<Plan>, marks: seq<int>, joined: seq<string>, table: string)
    returns (i: nat, marks': seq<int>, joined': seq<string>)
    requires ScansOk(tables, scans) && |marks| == |tables| && table in tables
    ensures i < |tables| && tables[i] == table && marks' == marks[i := 1] && joined' == joined + [table]
  {
    i := 0;
    while scans[i].tab != table
      invariant i < |scans| && table in tables[i..]
      decreases |scans| - i
    {
      i := i + 1;
    }
    marks', joined' := marks[i := 1], joined + [table];
  }

  lemma MarkOne(tables: seq<string>, marks: seq<int>, within: set<string>, i: nat)
    requires NoDup(tables) && MarksOk(tables, marks, within) && i < |tables|
    ensures MarksOk(tables, marks[i := 1], within + {tables[i]})
  {}

  lemma JoinOneName(tables: seq<string>, joined: seq<string>, within: set<string>, t: string)
    requires JoinedOk(tables, joined, within)
    ensures JoinedOk(tables, joined + [t], within + {t})
  {}

  /** A scan leaves the pool and enters the tree. */
  lemma TakeScan(tables: seq<string>, scans: seq<Plan>, marks: seq<int>, placed: multiset<Cond>, rest: seq<Cond>,
                 all: multiset<Cond>, i: nat)
    requires Accounted(tables, scans, marks, placed, rest, all) && i < |tables| && marks[i] == -1
    requires ScansOk(tables, scans)
    ensures Accounted(tables, scans, marks[i := 1], placed + Bag(tables, AllConds(scans[i])), rest, all)
  {
    PoolTake(Shares(tables, scans), marks, i, |tables|);
    assert AllConds(scans[i]) == scans[i].conds;
  }

  /** A condition leaves the list and enters the tree. */
  lemma TakeCond(tables: seq<string>, scans: seq<Plan>, marks: seq<int>, placed: multiset<Cond>, rest: seq<Cond>,
                 all: multiset<Cond>)
    requires Accounted(tables, scans, marks, placed, rest, all) && rest != []
    ensures Accounted(tables, scans, marks, placed + multiset{Norm(tables, rest[0])}, rest[1..], all)
  {
    assert rest == [rest[0]] + rest[1..];
    BagJoin(tables, [rest[0]], rest[1..]);
    BagOne(tables, rest[0]);
  }

  lemma JoinBagOne(tables: seq<string>, l: Plan, r: Plan, c: Cond)
    ensures Bag(tables, AllConds(Join(l, r, [c]))) ==
      Bag(tables, AllConds(l)) + Bag(tables, AllConds(r)) + multiset{Norm(tables, c)}
    ensures Bag(tables, AllConds(Join(l, r, []))) == Bag(tables, AllConds(l)) + Bag(tables, AllConds(r))
  {
    JoinBag(tables, l, r, [c]);
    JoinBag(tables, l, r, []);
    BagOne(tables, c);
  }

  // ---------- the four ways the tree grows ----------

  /** The first condition joins the scans of its two tables. */
  lemma FirstJoin(tables: seq<string>, scans: seq<Plan>, rest: seq<Cond>, all: multiset<Cond>, i: nat, j: nat)
    requires tables != [] && NoDup(tables) && ScansOk(tables, scans) && i < |tables| && j < |tables| && rest != []
    requires CrossTable(tables, rest[0]) && tables[i] == rest[0].lhs.tab && tables[j] == rest[0].rhs.tab
    requires Accounted(tables, scans, Unmarked(|tables|), multiset{}, rest, all)
    ensures var w := Work(Unmarked(|tables|)[i := 1][j := 1], [], Join(scans[i], scans[j], [rest[0]]));
      Building(tables, scans, w, rest[1..], all)
  {
    LeafSubTree(tables, scans, i);
    LeafSubTree(tables, scans, j);
    JoinSubTrees(tables, scans, scans[i], scans[j], [rest[0]]);
    AddPairMarks(tables, Unmarked(|tables|), {}, i, j);
    FirstAccount(tables, scans, rest, all, i, j);
    assert Tabs(Join(scans[i], scans[j], [rest[0]])) == {} + {tables[i]} + {tables[j]};
  }

  lemma FirstAccount(tables: seq<string>, scans: seq<Plan>, rest: seq<Cond>, all: multiset<Cond>, i: nat, j: nat)
    requires ScansOk(tables, scans) && i < |tables| && j < |tables| && i != j && rest != []
    requires Accounted(tables, scans, Unmarked(|tables|), multiset{}, rest, all)
    ensures Accounted(tables, scans, Unmarked(|tables|)[i := 1][j := 1],
      Bag(tables, AllConds(Join(scans[i], scans[j], [rest[0]]))), rest[1..], all)
  {
    var marks := Unmarked(|tables|);
    TakeScan(tables, scans, marks, multiset{}, rest, all, i);
    var one := multiset{} + Bag(tables, AllConds(scans[i]));
    TakeScan(tables, scans, marks[i := 1], one, rest, all, j);
    TakeCond(tables, scans, marks[i := 1][j := 1], one + Bag(tables, AllConds(scans[j])), rest, all);
    JoinBagOne(tables, scans[i], scans[j], rest[0]);
  }

  /** One scan goes on the left of the tree, under a condition that compares the two or under none. */
  lemma AddScan(tables: seq<string>, scans: seq<Plan>, w: Work, rest: seq<Cond>, all: multiset<Cond>, i: nat, c: Cond,
                joined: seq<string>)
    requires Building(tables, scans, w, rest, all) && i < |tables| && tables[i] !in Tabs(w.plan)
    requires rest != [] && Norm(tables, c) == Norm(tables, rest[0]) && !c.isVal
    requires c.lhs.tab == tables[i] && c.rhs.tab in Tabs(w.plan)
    ensures Building(tables, scans, Work(w.marks[i := 1], joined, Join(scans[i], w.plan, [c])), rest[1..], all)
    ensures Tabs(Join(scans[i], w.plan, [c])) == Tabs(w.plan) + {c.lhs.tab, c.rhs.tab}
  {
    LeafSubTree(tables, scans, i);
    JoinSubTrees(tables, scans, scans[i], w.plan, [c]);
    MarkOne(tables, w.marks, Tabs(w.plan), i);
    var placed := Bag(tables, AllConds(w.plan));
    TakeScan(tables, scans, w.marks, placed, rest, all, i);
    TakeCond(tables, scans, w.marks[i := 1], placed + Bag(tables, AllConds(scans[i])), rest, all);
    JoinBagOne(tables, scans[i], w.plan, c);
    assert Tabs(Join(scans[i], w.plan, [c])) == Tabs(w.plan) + {tables[i]};
  }

  lemma AddBareScan(tables: seq<string>, scans: seq<Plan>, w: Work, all: multiset<Cond>, i: nat)
    requires Building(tables, scans, w, [], all) && i < |tables| && tables[i] !in Tabs(w.plan)
    ensures Building(tables, scans, Work(w.marks[i := 1], w.joined, Join(scans[i], w.plan, [])), [], all)
  {
    LeafSubTree(tables, scans, i);
    JoinSubTrees(tables, scans, scans[i], w.plan, []);
    MarkOne(tables, w.marks, Tabs(w.plan), i);
    TakeScan(tables, scans, w.marks, Bag(tables, AllConds(w.plan)), [], all, i);
    JoinBag(tables, scans[i], w.plan, []);
    assert Tabs(Join(scans[i], w.plan, [])) == Tabs(w.plan) + {tables[i]};
  }

  /** Both tables are new: they are joined first and the pair goes on the left. */
  lemma AddPair(tables: seq<string>, scans: seq<Plan>, w: Work, rest: seq<Cond>, all: multiset<Cond>, i: nat, j: nat,
                joined: seq<string>)
    requires Building(tables, scans, w, rest, all) && i < |tables| && j < |tables| && rest != []
    requires CrossTable(tables, rest[0]) && tables[i] == rest[0].lhs.tab && tables[j] == rest[0].rhs.tab
    requires tables[i] !in Tabs(w.plan) && tables[j] !in Tabs(w.plan)
    ensures var plan := Join(Join(scans[i], scans[j], [rest[0]]), w.plan, []);
      && Building(tables, scans, Work(w.marks[i := 1][j := 1], joined, plan), rest[1..], all)
      && Tabs(plan) == Tabs(w.plan) + {rest[0].lhs.tab, rest[0].rhs.tab}
  {
    var pair := Join(scans[i], scans[j], [rest[0]]);
    LeafSubTree(tables, scans, i);
    LeafSubTree(tables, scans, j);
    JoinSubTrees(tables, scans, scans[i], scans[j], [rest[0]]);
    JoinSubTrees(tables, scans, pair, w.plan, []);
    AddPairMarks(tables, w.marks, Tabs(w.plan), i, j);
    AddPairAccount(tables, scans, w, rest, all, i, j);
    assert Tabs(Join(pair, w.plan, [])) == Tabs(w.plan) + {tables[i]} + {tables[j]};
  }

  lemma AddPairMarks(tables: seq<string>, marks: seq<int>, within: set<string>, i: nat, j: nat)
    requires NoDup(tables) && MarksOk(tables, marks, within) && i < |tables| && j < |tables|
    ensures MarksOk(tables, marks[i := 1][j := 1], within + {tables[i]} + {tables[j]})
  {
    MarkOne(tables, marks, within, i);
    MarkOne(tables, marks[i := 1], within + {tables[i]}, j);
  }

  lemma AddPairAccount(tables: seq<string>, scans: seq<Plan>, w: Work, rest: seq<Cond>, all: multiset<Cond>, i: nat,
                       j: nat)
    requires ScansOk(tables, scans) && i < |tables| && j < |tables| && i != j && rest != [] && |w.marks| == |tables|
    requires Accounted(tables, scans, w.marks, Bag(tables, AllConds(w.plan)), rest, all)
    requires w.marks[i] == -1 && w.marks[j] == -1
    ensures var p := Join(Join(scans[i], scans[j], [rest[0]]), w.plan, []);
      Accounted(tables, scans, w.marks[i := 1][j := 1], Bag(tables, AllConds(p)), rest[1..], all)
  {
    var placed := Bag(tables, AllConds(w.plan));
    TakeScan(tables, scans, w.marks, placed, rest, all, i);
    var one := placed + Bag(tables, AllConds(scans[i]));
    TakeScan(tables, scans, w.marks[i := 1], one, rest, all, j);
    TakeCond(tables, scans, w.marks[i := 1][j := 1], one + Bag(tables, AllConds(scans[j])), rest, all);
    JoinBagOne(tables, scans[i], scans[j], rest[0]);
    JoinBagOne(tables, Join(scans[i], scans[j], [rest[0]]), w.plan, rest[0]);
  }

  /** Both tables are in the tree already: the condition is pushed down. */
  lemma Push(tables: seq<string>, scans: seq<Plan>, w: Work, rest: seq<Cond>, all: multiset<Cond>,
             joined: seq<string>)
    requires Building(tables, scans, w, rest, all) && rest != [] && CrossTable(tables, rest[0])
    requires rest[0].lhs.tab in Tabs(w.plan) && rest[0].rhs.tab in Tabs(w.plan)
    ensures var plan := PushConds(rest[0], w.plan).plan;
      && Building(tables, scans, Work(w.marks, joined, plan), rest[1..], all)
      && Tabs(plan) == Tabs(w.plan) + {rest[0].lhs.tab, rest[0].rhs.tab}
  {
    PushSubTree(tables, scans, w.plan, rest[0]);
    PushConds_Code(rest[0], w.plan);
    PushConds_Bag(tables, rest[0], w.plan);
    TakeCond(tables, scans, w.marks, Bag(tables, AllConds(w.plan)), rest, all);
  }

  // ---------- the loops ----------

  ghost predicate Ready(tables: seq<string>, scans: seq<Plan>, w: Work, rest: seq<Cond>, all: multiset<Cond>)
  {
    && Building(tables, scans, w, rest, all) && AllCross(tables, rest)
    && JoinedOk(tables, w.joined, Tabs(w.plan))
  }

  /** Joins the scans of the two tables of the first condition. */
  method StartTree(tables: seq<string>, scans: seq<Plan>, conds: seq<Cond>, ghost all: multiset<Cond>) returns (w: Work)
    requires tables != [] && NoDup(tables) && "" !in tables && ScansOk(tables, scans)
    requires AllCross(tables, conds) && conds != []
    requires Accounted(tables, scans, Unmarked(|tables|), multiset{}, conds, all)
    ensures Ready(tables, scans, w, conds[1..], all)
  {
    var none := seq(|tables|, _ => "");
    var c := conds[0];
    assert JoinedOk(tables, none, {});
    var i, marks, joined := PopScan(tables, scans, Unmarked(|tables|), none, c.lhs.tab);
    var j, marks', joined' := PopScan(tables, scans, marks, joined, c.rhs.tab);
    JoinOneName(tables, none, {}, c.lhs.tab);
    JoinOneName(tables, joined, {} + {c.lhs.tab}, c.rhs.tab);
    FirstJoin(tables, scans, conds, all, i, j);
    w := Work(marks', joined', Join(scans[i], scans[j], [c]));
    assert Tabs(w.plan) == {} + {c.lhs.tab} + {c.rhs.tab};
  }

  /** The scans of those tables of the condition that are not in the tree yet. */
  method FetchScans(tables: seq<string>, scans: seq<Plan>, w: Work, c: Cond)
    returns (newLeft: bool, newRight: bool, i: nat, j: nat, marks: seq<int>, joined: seq<string>)
    requires tables != [] && NoDup(tables) && ScansOk(tables, scans) && |w.marks| == |tables|
    requires JoinedOk(tables, w.joined, Tabs(w.plan)) && CrossTable(tables, c)
    ensures newLeft <==> c.lhs.tab !in Tabs(w.plan)
    ensures newRight <==> c.rhs.tab !in Tabs(w.plan)
    ensures newLeft ==> i < |tables| && tables[i] == c.lhs.tab
    ensures newRight ==> j < |tables| && tables[j] == c.rhs.tab
    ensures marks == if newLeft && newRight then w.marks[i := 1][j := 1]
                     else if newLeft then w.marks[i := 1] else if newRight then w.marks[j := 1] else w.marks
    ensures JoinedOk(tables, joined, Tabs(w.plan) + {c.lhs.tab, c.rhs.tab})
  {
    i, j, marks, joined := 0, 0, w.marks, w.joined;
    newLeft, newRight := c.lhs.tab !in joined, c.rhs.tab !in joined;
    if newLeft {
      i, marks, joined := PopScan(tables, scans, marks, joined, c.lhs.tab);
    }
    if newRight {
      j, marks, joined := PopScan(tables, scans, marks, joined, c.rhs.tab);
    }
  }

  /** Places the next condition: joins the tables it brings in, or pushes it down. */
  method PlaceCond(tables: seq<string>, scans: seq<Plan>, w: Work, conds: seq<Cond>, ghost all: multiset<Cond>)
    returns (w': Work)
    requires Ready(tables, scans, w, conds, all) && conds != []
    ensures Ready(tables, scans, w', conds[1..], all)
  {
    var c := conds[0];
    assert CrossTable(tables, c);
    var newLeft, newRight, i, j, marks, joined := FetchScans(tables, scans, w, c);
    if newLeft && newRight {
      AddPair(tables, scans, w, conds, all, i, j, joined);
      w' := Work(marks, joined, Join(Join(scans[i], scans[j], [c]), w.plan, []));
    } else if newLeft {
      AddScan(tables, scans, w, conds, all, i, c, joined);
      w' := Work(marks, joined, Join(scans[i], w.plan, [c]));
    } else if newRight {
      SwapKeepsNorm(tables, c);
      AddScan(tables, scans, w, conds, all, j, Swapped(c), joined);
      w' := Work(marks, joined, Join(scans[j], w.plan, [Swapped(c)]));
    } else {
      Push(tables, scans, w, conds, all, joined);
      w' := Work(marks, joined, PushConds(c, w.plan).plan);
    }
  }

  /** The tree holds every table once and every condition once. */
  ghost predicate Finished(tables: seq<string>, scans: seq<Plan>, plan: Plan, all: multiset<Cond>)
    requires tables != [] && scans != []
  {
    && SubTree(tables, scans, plan) && Tabs(plan) == SetOf(tables)
    && Bag(tables, AllConds(plan)) == all
  }

  method JoinRemaining(tables: seq<string>, scans: seq<Plan>, start: Work, ghost all: multiset<Cond>)
    returns (plan: Plan)
    requires Building(tables, scans, start, [], all)
    ensures Finished(tables, scans, plan, all)
  {
    var w := start;
    for i := 0 to |tables|
      invariant Building(tables, scans, w, [], all)
      invariant forall j :: 0 <= j < i ==> tables[j] in Tabs(w.plan)
    {
      if w.marks[i] == -1 {
        AddBareScan(tables, scans, w, all, i);
        w := Work(w.marks[i := 1], w.joined, Join(scans[i], w.plan, []));
      }
    }
    plan := w.plan;
    PoolEmpty(Shares(tables, scans), w.marks, |tables|);
    assert Bag(tables, []) == multiset{};
  }

  datatype Planned = Planned(plan: Plan) | NoJoinExecutor

  /** The planner's join tree: each table scanned once, each condition placed once (its sides swapped where the
      join needs it), join conditions from left to right; and every condition is where its columns are exactly
      when the conditions within one table are all on the first.  A query that joins on a condition is refused
      exactly when both join algorithms are switched off; otherwise the switches make no difference to the tree. */
  method MakeOneRel(tables: seq<string>, conds: seq<Cond>, nestedLoop: bool, sortMerge: bool) returns (r: Planned)
    requires ValidQuery(tables, conds)
    ensures r.NoJoinExecutor? <==> !nestedLoop && !sortMerge && HasJoinCond(tables, conds)
    ensures r.Planned? ==> Apart(r.plan) && Oriented(r.plan) && Tabs(r.plan) == SetOf(tables)
    ensures r.Planned? ==> Bag(tables, AllConds(r.plan)) == Bag(tables, conds)
    ensures r.Planned? ==> (WellPlaced(r.plan) <==> WithinFirst(tables, conds))
  {
    ghost var all := Bag(tables, conds);
    var scans, rest := ScanTables(tables, conds);
    if |tables| == 1 {
      OnlyTable(tables, scans, rest, all);
      return Planned(scans[0]);
    }
    if |rest| >= 1 && !nestedLoop && !sortMerge {
      return NoJoinExecutor;
    }
    var plan := JoinTables(tables, scans, rest, all);
    assert tables[0] in Tabs(plan);
    return Planned(plan);
  }

  /** Joins along the conditions first, then adds the tables no condition mentions. */
  method JoinTables(tables: seq<string>, scans: seq<Plan>, conds: seq<Cond>, ghost all: multiset<Cond>)
    returns (plan: Plan)
    requires tables != [] && NoDup(tables) && "" !in tables && ScansOk(tables, scans) && AllCross(tables, conds)
    requires Pool(Shares(tables, scans), Unmarked(|tables|), |tables|) + Bag(tables, conds) == all
    ensures Finished(tables, scans, plan, all)
  {
    var w: Work;
    if |conds| >= 1 {
      var rest := conds[1..];
      w := StartTree(tables, scans, conds, all);
      while rest != []
        invariant Ready(tables, scans, w, rest, all)
        decreases |rest|
      {
        w := PlaceCond(tables, scans, w, rest, all);
        rest := rest[1..];
      }
    } else {
      StartBare(tables, scans, all);
      w := Work(Unmarked(|tables|)[0 := 1], [], scans[0]);
    }
    plan := JoinRemaining(tables, scans, w, all);
  }

  lemma StartBare(tables: seq<string>, scans: seq<Plan>, all: multiset<Cond>)
    requires tables != [] && NoDup(tables) && ScansOk(tables, scans)
    requires Pool(Shares(tables, scans), Unmarked(|tables|), |tables|) + Bag(tables, []) == all
    ensures Building(tables, scans, Work(Unmarked(|tables|)[0 := 1], [], scans[0]), [], all)
  {
    LeafSubTree(tables, scans, 0);
    MarkOne(tables, Unmarked(|tables|), {}, 0);
    TakeScan(tables, scans, Unmarked(|tables|), multiset{}, [], all, 0);
    assert Tabs(scans[0]) == {} + {tables[0]};
  }

  lemma OnlyTable(tables: seq<string>, scans: seq<Plan>, rest: seq<Cond>, all: multiset<Cond>)
    requires |tables| == 1 && NoDup(tables) && ScansOk(tables, scans) && AllCross(tables, rest)
    requires Pool(Shares(tables, scans), Unmarked(1), 1) + Bag(tables, rest) == all
    ensures Finished(tables, scans, scans[0], all) && rest == []
  {
    assert rest != [] ==> CrossTable(tables, rest[0]);
    StartBare(tables, scans, all);
    PoolEmpty(Shares(tables, scans), Unmarked(1)[0 := 1], 1);
    assert Bag(tables, []) == multiset{};
  }

  // ---------- what the tree returns ----------

  /** The planned query returns the rows of the filtered cross product, each as often, for every database. */
  lemma PlanPreservesQuery(db: Tables, tables: seq<string>, conds: seq<Cond>, cols: seq<TabCol>, plan: Plan)
    requires ValidQuery(tables, conds) && WithinFirst(tables, conds)
    requires Apart(plan) && Tabs(plan) == SetOf(tables) && Bag(tables, AllConds(plan)) == Bag(tables, conds)
    requires WellPlaced(plan) <==> WithinFirst(tables, conds)
    ensures multiset(Exec(db, plan)) == multiset(Filter(db, Cross(db, tables), conds))
    ensures multiset(ProjectAll(db, Exec(db, plan), cols)) ==
      multiset(ProjectAll(db, Filter(db, Cross(db, tables), conds), cols))
  {
    forall e ensures MeetsAll(db, e, AllConds(plan)) <==> MeetsAll(db, e, conds) {
      BagMeets(db, e, tables, AllConds(plan));
      BagMeets(db, e, tables, conds);
    }
    PlanMeansQuery(db, plan, tables, conds, cols);
  }

  /** The restriction is real: a comparison within the second table is handed to the scan of the first. */
  lemma SameTableMisplaced(a: string, b: string, c: Cond)
    requires a != b && !c.isVal && c.lhs.tab == b && c.rhs.tab == b
    ensures Taken(a, [c]) == [c] && Kept(a, [c]) == []
    ensures !WellPlaced(Scan(a, Taken(a, [c])))
  {
    assert [c][..0] == [];
    assert Taken(a, []) == [] && Kept(a, []) == [];
  }
}
