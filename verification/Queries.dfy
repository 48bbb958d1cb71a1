/** Conditions, plans and what a plan returns, against filtering the full cross product. */
module Queries {
  import opened Sequences

  datatype CompOp = EQ | NE | LT | GT | LE | GE

  datatype TabCol = TabCol(tab: string, col: string)

  /** A column compared with a value or with another column. */
  datatype Cond = Cond(lhs: TabCol, op: CompOp, isVal: bool, rhs: TabCol, val: int)
  {
    predicate Fits(tabs: set<string>)
    {
      lhs.tab in tabs && (isVal || rhs.tab in tabs)
    }
  }

  function SwapOp(op: CompOp): CompOp
  {
    match op
    case EQ => EQ
    case NE => NE
    case LT => GT
    case GT => LT
    case LE => GE
    case GE => LE
  }

  function Swapped(c: Cond): Cond
  {
    c.(lhs := c.rhs, rhs := c.lhs, op := SwapOp(c.op))
  }

  predicate Compare(a: int, op: CompOp, b: int)
  {
    match op
    case EQ => a == b
    case NE => a != b
    case LT => a < b
    case GT => a > b
    case LE => a <= b
    case GE => a >= b
  }

  /** Three-way comparison, and what each operator makes of its result. */
  function CompareRaw(a: int, b: int): int
  {
    if a < b then -1 else if a > b then 1 else 0
  }

  predicate EvaluateCompareResult(cmp: int, op: CompOp)
  {
    match op
    case EQ => cmp == 0
    case NE => cmp != 0
    case LT => cmp < 0
    case GT => cmp > 0
    case LE => cmp <= 0
    case GE => cmp >= 0
  }

  /** The operators mean what they say, and are what the executors make of a three-way comparison. */
  lemma CompareMeans(a: int, b: int)
    ensures Compare(a, EQ, b) <==> a == b
    ensures Compare(a, NE, b) <==> !(a == b)
    ensures Compare(a, LT, b) <==> a < b
    ensures Compare(a, GE, b) <==> !(a < b)
    ensures Compare(a, GT, b) <==> b < a
    ensures Compare(a, LE, b) <==> !(b < a)
    ensures forall op :: EvaluateCompareResult(CompareRaw(a, b), op) <==> Compare(a, op, b)
  {}

  // ---------- rows ----------

  type Row = string -> int
  type Tables = map<string, seq<Row>>

  /** One row chosen from each of some tables, by position, so that equal rows stay apart. */
  type Env = map<string, nat>

  predicate InRange(db: Tables, e: Env)
  {
    forall t :: t in e ==> t in db && e[t] < |db[t]|
  }

  function Value(db: Tables, e: Env, c: TabCol): int
    requires InRange(db, e) && c.tab in e
  {
    db[c.tab][e[c.tab]](c.col)
  }

  predicate Eval(db: Tables, e: Env, c: Cond)
    requires InRange(db, e) && c.Fits(e.Keys)
  {
    Compare(Value(db, e, c.lhs), c.op, if c.isVal then c.val else Value(db, e, c.rhs))
  }

  /** A condition whose columns are not there is never met. */
  predicate Meets(db: Tables, e: Env, c: Cond)
  {
    InRange(db, e) && c.Fits(e.Keys) && Eval(db, e, c)
  }

  predicate MeetsAll(db: Tables, e: Env, cs: seq<Cond>)
  {
    forall i :: 0 <= i < |cs| ==> Meets(db, e, cs[i])
  }

  /** A condition is met by one chosen row per table: both columns are there and their values compare as asked. */
  lemma MeetsMeans(db: Tables, e: Env, c: Cond)
    ensures Meets(db, e, c) <==>
      && (forall t :: t in e ==> t in db && e[t] < |db[t]|)
      && c.lhs.tab in e && (c.isVal || c.rhs.tab in e)
      && var a := db[c.lhs.tab][e[c.lhs.tab]](c.lhs.col);
      && var b := if c.isVal then c.val else db[c.rhs.tab][e[c.rhs.tab]](c.rhs.col);
      && (c.op == EQ ==> a == b) && (c.op == NE ==> a != b) && (c.op == LT ==> a < b)
      && (c.op == GT ==> a > b) && (c.op == LE ==> a <= b) && (c.op == GE ==> a >= b)
  {}

  lemma SwapMeansSame(db: Tables, e: Env, c: Cond)
    requires !c.isVal
    ensures Meets(db, e, Swapped(c)) <==> Meets(db, e, c)
    ensures Swapped(Swapped(c)) == c
  {}

  // ---------- plans ----------

  datatype Plan =
    | Scan(tab: string, conds: seq<Cond>)
    | Join(left: Plan, right: Plan, conds: seq<Cond>)

  function Tabs(p: Plan): set<string>
  {
    match p
    case Scan(tab, _) => {tab}
    case Join(l, r, _) => Tabs(l) + Tabs(r)
  }

  /** No table is scanned twice. */
  predicate Apart(p: Plan)
  {
    match p
    case Scan(_, _) => true
    case Join(l, r, _) => Apart(l) && Apart(r) && Tabs(l) !! Tabs(r)
  }

  /** Every condition sits at a node that has its columns. */
  ghost predicate WellPlaced(p: Plan)
  {
    && (forall i :: 0 <= i < |p.conds| ==> p.conds[i].Fits(Tabs(p)))
    && (p.Join? ==> WellPlaced(p.left) && WellPlaced(p.right))
  }

  function AllConds(p: Plan): seq<Cond>
  {
    match p
    case Scan(_, cs) => cs
    case Join(l, r, cs) => AllConds(l) + AllConds(r) + cs
  }

  // ---------- execution by plain nested loops ----------

  function ScanRows(db: Tables, tab: string, cs: seq<Cond>, n: nat): seq<Env>
  {
    if n == 0 then []
    else ScanRows(db, tab, cs, n - 1) + if MeetsAll(db, map[tab := n - 1], cs) then [map[tab := n - 1]] else []
  }

  function JoinOne(db: Tables, l: Env, rs: seq<Env>, cs: seq<Cond>): seq<Env>
    decreases |rs|
  {
    if rs == [] then []
    else
      var e := l + rs[|rs| - 1];
      JoinOne(db, l, rs[..|rs| - 1], cs) + if MeetsAll(db, e, cs) then [e] else []
  }

  function JoinRows(db: Tables, ls: seq<Env>, rs: seq<Env>, cs: seq<Cond>): seq<Env>
    decreases |ls|
  {
    if ls == [] then [] else JoinRows(db, ls[..|ls| - 1], rs, cs) + JoinOne(db, ls[|ls| - 1], rs, cs)
  }

  function Size(db: Tables, tab: string): nat
  {
    if tab in db then |db[tab]| else 0
  }

  function Exec(db: Tables, p: Plan): seq<Env>
  {
    match p
    case Scan(tab, cs) => ScanRows(db, tab, cs, Size(db, tab))
    case Join(l, r, cs) => JoinRows(db, Exec(db, l), Exec(db, r), cs)
  }

  // ---------- the reference: cross product first, every condition afterwards ----------

  function Cross(db: Tables, tables: seq<string>): seq<Env>
    decreases |tables|
  {
    if tables == [] then [map[]]
    else
      var tab := tables[|tables| - 1];
      JoinRows(db, Cross(db, tables[..|tables| - 1]), ScanRows(db, tab, [], Size(db, tab)), [])
  }

  function Filter(db: Tables, es: seq<Env>, cs: seq<Cond>): seq<Env>
    decreases |es|
  {
    if es == [] then []
    else Filter(db, es[..|es| - 1], cs) + if MeetsAll(db, es[|es| - 1], cs) then [es[|es| - 1]] else []
  }

  // ---------- who is in, and no one twice ----------

  lemma {:induction false} ScanRowsIn(db: Tables, tab: string, cs: seq<Cond>, n: nat)
    requires n <= Size(db, tab)
    ensures NoDup(ScanRows(db, tab, cs, n))
    ensures forall e :: e in ScanRows(db, tab, cs, n) <==> e.Keys == {tab} && e[tab] < n && MeetsAll(db, e, cs)
  {
    if n > 0 {
      ScanRowsIn(db, tab, cs, n - 1);
      var e := map[tab := n - 1];
      var front, rest := ScanRows(db, tab, cs, n - 1), if MeetsAll(db, e, cs) then [e] else [];
      NoDupJoin(front, rest);
      forall f: Env
        ensures f in ScanRows(db, tab, cs, n) <==> f.Keys == {tab} && f[tab] < n && MeetsAll(db, f, cs)
      {
        assert f in ScanRows(db, tab, cs, n) <==> f in front || f in rest;
        OneRow(tab, n - 1, f);
      }
    }
  }

  lemma OneRow(tab: string, i: nat, f: Env)
    ensures f.Keys == {tab} && f[tab] == i <==> f == map[tab := i]
  {}

  lemma {:induction false} JoinOneIn(db: Tables, l: Env, rs: seq<Env>, cs: seq<Cond>, keys: set<string>)
    requires NoDup(rs) && l.Keys !! keys && forall r :: r in rs ==> r.Keys == keys
    ensures NoDup(JoinOne(db, l, rs, cs))
    ensures forall e :: e in JoinOne(db, l, rs, cs) <==> MeetsAll(db, e, cs) && exists r :: r in rs && e == l + r
    decreases |rs|
  {
    if rs != [] {
      var n := |rs| - 1;
      JoinOneIn(db, l, rs[..n], cs, keys);
      var e := l + rs[n];
      var front := JoinOne(db, l, rs[..n], cs);
      if e in front {
        var r :| r in rs[..n] && e == l + r;
        MergeRight(l, r, rs[n]);
      }
      NoDupJoin(front, if MeetsAll(db, e, cs) then [e] else []);
      forall f ensures f in JoinOne(db, l, rs, cs) <==> MeetsAll(db, f, cs) && exists r :: r in rs && f == l + r {
        assert rs == rs[..n] + [rs[n]];
        if f == e {
          assert rs[n] in rs;
        }
      }
    }
  }

  lemma MergeRight(l: Env, r: Env, r': Env)
    requires l.Keys !! r.Keys && r.Keys == r'.Keys && l + r == l + r'
    ensures r == r'
  {
    forall t | t in r ensures r[t] == r'[t] {
      assert (l + r)[t] == r[t] && (l + r')[t] == r'[t];
    }
  }

  lemma MergeLeft(l: Env, l': Env, r: Env, r': Env)
    requires l.Keys == l'.Keys && l.Keys !! r.Keys && l'.Keys !! r'.Keys && l + r == l' + r'
    ensures l == l'
  {
    forall t | t in l ensures l[t] == l'[t] {
      assert (l + r)[t] == l[t] && (l' + r')[t] == l'[t];
    }
  }

  ghost predicate Merged(e: Env, ls: seq<Env>, rs: seq<Env>)
  {
    exists l, r :: l in ls && r in rs && e == l + r
  }

  lemma MergedSnoc(e: Env, ls: seq<Env>, l: Env, rs: seq<Env>)
    ensures Merged(e, ls + [l], rs) <==> Merged(e, ls, rs) || exists r :: r in rs && e == l + r
  {
    if Merged(e, ls + [l], rs) {
      var l', r :| l' in ls + [l] && r in rs && e == l' + r;
      assert l' in ls || l' == l;
    }
    if Merged(e, ls, rs) {
      var l', r :| l' in ls && r in rs && e == l' + r;
      assert l' in ls + [l];
    }
    assert l in ls + [l];
  }

  lemma {:induction false} JoinRowsIn(db: Tables, ls: seq<Env>, rs: seq<Env>, cs: seq<Cond>, left: set<string>,
                                      right: set<string>)
    requires NoDup(ls) && NoDup(rs) && left !! right
    requires (forall l :: l in ls ==> l.Keys == left) && (forall r :: r in rs ==> r.Keys == right)
    ensures NoDup(JoinRows(db, ls, rs, cs))
    ensures forall e :: e in JoinRows(db, ls, rs, cs) <==>
      MeetsAll(db, e, cs) && Merged(e, ls, rs)
    decreases |ls|
  {
    if ls != [] {
      var n := |ls| - 1;
      var front, back := JoinRows(db, ls[..n], rs, cs), JoinOne(db, ls[n], rs, cs);
      JoinRowsIn(db, ls[..n], rs, cs, left, right);
      JoinOneIn(db, ls[n], rs, cs, right);
      forall e | e in front ensures e !in back {
        if e in back {
          assert Merged(e, ls[..n], rs);
          var l, r :| l in ls[..n] && r in rs && e == l + r;
          var r' :| r' in rs && e == ls[n] + r';
          MergeLeft(l, ls[n], r, r');
        }
      }
      NoDupJoin(front, back);
      assert ls == ls[..n] + [ls[n]];
      forall e ensures Merged(e, ls, rs) <==> Merged(e, ls[..n], rs) || exists r :: r in rs && e == ls[n] + r {
        MergedSnoc(e, ls[..n], ls[n], rs);
      }
    }
  }

  // ---------- a well placed plan returns the rows that meet all its conditions ----------

  function Part(e: Env, tabs: set<string>): Env
  {
    map t | t in e && t in tabs :: e[t]
  }

  lemma PartMeets(db: Tables, e: Env, tabs: set<string>, cs: seq<Cond>)
    requires InRange(db, e) && tabs <= e.Keys && forall i :: 0 <= i < |cs| ==> cs[i].Fits(tabs)
    ensures MeetsAll(db, Part(e, tabs), cs) <==> MeetsAll(db, e, cs)
  {
    var f := Part(e, tabs);
    assert f.Keys == tabs;
    forall i | 0 <= i < |cs| ensures Meets(db, f, cs[i]) <==> Meets(db, e, cs[i]) {
      assert cs[i].Fits(tabs);
    }
  }

  lemma {:induction false} PlacedConds(p: Plan)
    requires WellPlaced(p)
    ensures forall i :: 0 <= i < |AllConds(p)| ==> AllConds(p)[i].Fits(Tabs(p))
  {
    if p.Join? {
      PlacedConds(p.left);
      PlacedConds(p.right);
    }
  }

  lemma MeetsAllJoin(db: Tables, e: Env, a: seq<Cond>, b: seq<Cond>)
    ensures MeetsAll(db, e, a + b) <==> MeetsAll(db, e, a) && MeetsAll(db, e, b)
  {
    if MeetsAll(db, e, a + b) {
      forall i | 0 <= i < |a| ensures Meets(db, e, a[i]) { assert (a + b)[i] == a[i]; }
      forall i | 0 <= i < |b| ensures Meets(db, e, b[i]) { assert (a + b)[|a| + i] == b[i]; }
    }
  }

  lemma SplitEnv(e: Env, left: set<string>, right: set<string>)
    requires left !! right && e.Keys == left + right
    ensures Part(e, left).Keys == left && Part(e, right).Keys == right && e == Part(e, left) + Part(e, right)
  {}

  lemma PartOfMerge(l: Env, r: Env)
    requires l.Keys !! r.Keys
    ensures Part(l + r, l.Keys) == l && Part(l + r, r.Keys) == r
  {}

  lemma {:induction false} ExecIs(db: Tables, p: Plan)
    requires Apart(p) && WellPlaced(p)
    ensures NoDup(Exec(db, p))
    ensures forall e :: e in Exec(db, p) <==> e.Keys == Tabs(p) && InRange(db, e) && MeetsAll(db, e, AllConds(p))
  {
    match p
    case Scan(tab, cs) =>
      ScanRowsIn(db, tab, cs, Size(db, tab));
    case Join(l, r, cs) =>
      ExecIs(db, l);
      ExecIs(db, r);
      JoinRowsIn(db, Exec(db, l), Exec(db, r), cs, Tabs(l), Tabs(r));
      forall e
        ensures e in Exec(db, p) <==> e.Keys == Tabs(p) && InRange(db, e) && MeetsAll(db, e, AllConds(p))
      {
        ExecJoin(db, p, e);
      }
  }

  lemma ExecJoin(db: Tables, p: Plan, e: Env)
    requires p.Join? && Apart(p) && WellPlaced(p)
    requires forall f :: f in Exec(db, p.left) <==>
      f.Keys == Tabs(p.left) && InRange(db, f) && MeetsAll(db, f, AllConds(p.left))
    requires forall f :: f in Exec(db, p.right) <==>
      f.Keys == Tabs(p.right) && InRange(db, f) && MeetsAll(db, f, AllConds(p.right))
    requires e in Exec(db, p) <==>
      MeetsAll(db, e, p.conds) && Merged(e, Exec(db, p.left), Exec(db, p.right))
    ensures e in Exec(db, p) <==> e.Keys == Tabs(p) && InRange(db, e) && MeetsAll(db, e, AllConds(p))
  {
    MeetsAllJoin(db, e, AllConds(p.left), AllConds(p.right));
    MeetsAllJoin(db, e, AllConds(p.left) + AllConds(p.right), p.conds);
    if e in Exec(db, p) {
      var l, r :| l in Exec(db, p.left) && r in Exec(db, p.right) && e == l + r;
      JoinedRow(db, p, l, r);
    }
    if e.Keys == Tabs(p) && InRange(db, e) && MeetsAll(db, e, AllConds(p)) {
      RowParts(db, p, e);
      assert Part(e, Tabs(p.left)) in Exec(db, p.left) && Part(e, Tabs(p.right)) in Exec(db, p.right);
    }
  }

  lemma JoinedRow(db: Tables, p: Plan, l: Env, r: Env)
    requires p.Join? && Apart(p) && WellPlaced(p)
    requires l.Keys == Tabs(p.left) && InRange(db, l) && MeetsAll(db, l, AllConds(p.left))
    requires r.Keys == Tabs(p.right) && InRange(db, r) && MeetsAll(db, r, AllConds(p.right))
    ensures var e := l + r;
      e.Keys == Tabs(p) && InRange(db, e) && MeetsAll(db, e, AllConds(p.left)) && MeetsAll(db, e, AllConds(p.right))
  {
    PlacedConds(p.left);
    PlacedConds(p.right);
    PartOfMerge(l, r);
    PartMeets(db, l + r, Tabs(p.left), AllConds(p.left));
    PartMeets(db, l + r, Tabs(p.right), AllConds(p.right));
  }

  lemma RowParts(db: Tables, p: Plan, e: Env)
    requires p.Join? && Apart(p) && WellPlaced(p) && e.Keys == Tabs(p) && InRange(db, e)
    requires MeetsAll(db, e, AllConds(p.left)) && MeetsAll(db, e, AllConds(p.right))
    ensures var l, r := Part(e, Tabs(p.left)), Part(e, Tabs(p.right));
      && l.Keys == Tabs(p.left) && InRange(db, l) && MeetsAll(db, l, AllConds(p.left))
      && r.Keys == Tabs(p.right) && InRange(db, r) && MeetsAll(db, r, AllConds(p.right))
      && e == l + r
  {
    PlacedConds(p.left);
    PlacedConds(p.right);
    SplitEnv(e, Tabs(p.left), Tabs(p.right));
    PartMeets(db, e, Tabs(p.left), AllConds(p.left));
    PartMeets(db, e, Tabs(p.right), AllConds(p.right));
  }

  // ---------- and so does the reference ----------

  ghost function SetOf(tables: seq<string>): set<string>
  {
    set t | t in tables
  }

  lemma {:induction false} CrossIs(db: Tables, tables: seq<string>)
    requires NoDup(tables)
    ensures Complete(db, Cross(db, tables), SetOf(tables))
    decreases |tables|
  {
    if tables != [] {
      var n := |tables| - 1;
      var tab, front := tables[n], tables[..n];
      CrossIs(db, front);
      FrontAndLast(tables);
      var rs := ScanRows(db, tab, [], Size(db, tab));
      ScanRowsIn(db, tab, [], Size(db, tab));
      OneTable(db, tab, rs);
      CrossStep(db, Cross(db, front), rs, SetOf(front), {tab});
    }
  }

  /** Exactly the rows that can be chosen from these tables. */
  ghost predicate Complete(db: Tables, es: seq<Env>, tabs: set<string>)
  {
    NoDup(es) && forall e :: e in es <==> Chosen(db, e, tabs)
  }

  predicate Chosen(db: Tables, e: Env, tabs: set<string>)
  {
    e.Keys == tabs && InRange(db, e)
  }

  lemma OneTable(db: Tables, tab: string, rs: seq<Env>)
    requires NoDup(rs)
    requires forall e :: e in rs <==> e.Keys == {tab} && e[tab] < Size(db, tab) && MeetsAll(db, e, [])
    ensures Complete(db, rs, {tab})
  {
    forall e: Env | e.Keys == {tab} ensures InRange(db, e) <==> e[tab] < Size(db, tab) {
      assert tab in e;
    }
  }

  lemma CrossStep(db: Tables, ls: seq<Env>, rs: seq<Env>, left: set<string>, right: set<string>)
    requires left !! right && Complete(db, ls, left) && Complete(db, rs, right)
    ensures Complete(db, JoinRows(db, ls, rs, []), left + right)
  {
    forall r | r in rs ensures r.Keys == right {
      assert Chosen(db, r, right);
    }
    forall l | l in ls ensures l.Keys == left {
      assert Chosen(db, l, left);
    }
    JoinRowsIn(db, ls, rs, [], left, right);
    forall e ensures e in JoinRows(db, ls, rs, []) <==> Chosen(db, e, left + right) {
      MergedIsChosen(db, ls, rs, left, right, e);
    }
  }

  lemma MergedIsChosen(db: Tables, ls: seq<Env>, rs: seq<Env>, left: set<string>, right: set<string>, e: Env)
    requires left !! right && Complete(db, ls, left) && Complete(db, rs, right)
    ensures Merged(e, ls, rs) <==> Chosen(db, e, left + right)
  {
    if Merged(e, ls, rs) {
      var l, r :| l in ls && r in rs && e == l + r;
      assert Chosen(db, l, left) && Chosen(db, r, right);
    }
    if Chosen(db, e, left + right) {
      SplitEnv(e, left, right);
      assert Chosen(db, Part(e, left), left) && Chosen(db, Part(e, right), right);
    }
  }

  lemma FrontAndLast(tables: seq<string>)
    requires NoDup(tables) && tables != []
    ensures var n := |tables| - 1;
      && NoDup(tables[..n]) && SetOf(tables[..n]) !! {tables[n]}
      && SetOf(tables) == SetOf(tables[..n]) + {tables[n]}
  {
    var n := |tables| - 1;
    assert tables == tables[..n] + [tables[n]];
    assert forall i :: 0 <= i < n ==> tables[..n][i] == tables[i];
  }

  lemma {:induction false} FilterIs(db: Tables, es: seq<Env>, cs: seq<Cond>)
    requires NoDup(es)
    ensures NoDup(Filter(db, es, cs))
    ensures forall e :: e in Filter(db, es, cs) <==> e in es && MeetsAll(db, e, cs)
    decreases |es|
  {
    if es != [] {
      var n := |es| - 1;
      FilterIs(db, es[..n], cs);
      assert es == es[..n] + [es[n]];
      NoDupJoin(Filter(db, es[..n], cs), if MeetsAll(db, es[n], cs) then [es[n]] else []);
    }
  }

  /** The reference, spelled out: every way to choose one row from each table that meets all conditions, each once. */
  lemma ReferenceMeans(db: Tables, tables: seq<string>, conds: seq<Cond>)
    requires NoDup(tables)
    ensures NoDup(Filter(db, Cross(db, tables), conds))
    ensures forall e :: e in Filter(db, Cross(db, tables), conds) <==>
      && (forall t :: t in e <==> t in tables) && (forall t :: t in e ==> t in db && e[t] < |db[t]|)
      && (forall i :: 0 <= i < |conds| ==> Meets(db, e, conds[i]))
  {
    CrossIs(db, tables);
    FilterIs(db, Cross(db, tables), conds);
    forall e: Env ensures e.Keys == SetOf(tables) <==> forall t :: t in e <==> t in tables {
      assert (forall t :: t in e <==> t in tables) ==> e.Keys == SetOf(tables);
      assert forall t :: t in SetOf(tables) <==> t in tables;
    }
    forall e: Env ensures e in Cross(db, tables) <==> Chosen(db, e, SetOf(tables)) {}
  }

  // ---------- same rows as a multiset, and the same after projection ----------

  /** The values of the selected columns. */
  function Project(db: Tables, e: Env, cols: seq<TabCol>): seq<int>
  {
    seq(|cols|, i requires 0 <= i < |cols| =>
      if InRange(db, e) && cols[i].tab in e then Value(db, e, cols[i]) else 0)
  }

  function ProjectAll(db: Tables, es: seq<Env>, cols: seq<TabCol>): seq<seq<int>>
    decreases |es|
  {
    if es == [] then [] else ProjectAll(db, es[..|es| - 1], cols) + [Project(db, es[|es| - 1], cols)]
  }

  /** Row by row in order, and in each row column by column in order. */
  lemma {:induction false} ProjectMeans(db: Tables, es: seq<Env>, cols: seq<TabCol>)
    ensures |ProjectAll(db, es, cols)| == |es|
    ensures forall i :: 0 <= i < |es| ==> |ProjectAll(db, es, cols)[i]| == |cols|
    ensures forall i, j :: 0 <= i < |es| && 0 <= j < |cols| && InRange(db, es[i]) && cols[j].tab in es[i] ==>
      ProjectAll(db, es, cols)[i][j] == db[cols[j].tab][es[i][cols[j].tab]](cols[j].col)
    decreases |es|
  {
    if es != [] {
      ProjectMeans(db, es[..|es| - 1], cols);
    }
  }

  lemma {:induction false} ProjectJoin(db: Tables, a: seq<Env>, b: seq<Env>, cols: seq<TabCol>)
    ensures ProjectAll(db, a + b, cols) == ProjectAll(db, a, cols) + ProjectAll(db, b, cols)
    decreases |b|
  {
    if b == [] {
      assert a + b == a;
    } else {
      var n := |b| - 1;
      assert (a + b)[..|a + b| - 1] == a + b[..n];
      ProjectJoin(db, a, b[..n], cols);
    }
  }

  lemma ProjectWithout(db: Tables, s: seq<Env>, k: nat, cols: seq<TabCol>)
    requires k < |s|
    ensures multiset(ProjectAll(db, s, cols)) ==
      multiset(ProjectAll(db, s[..k] + s[k + 1..], cols)) + multiset{Project(db, s[k], cols)}
  {
    RemoveOne(s, k);
    ProjectJoin(db, s[..k], s[k + 1..], cols);
    ProjectJoin(db, s[..k] + [s[k]], s[k + 1..], cols);
    ProjectJoin(db, s[..k], [s[k]], cols);
    assert ProjectAll(db, [s[k]], cols) == [Project(db, s[k], cols)];
  }

  lemma {:induction false} SameBagSameProjection(db: Tables, a: seq<Env>, b: seq<Env>, cols: seq<TabCol>)
    requires multiset(a) == multiset(b)
    ensures multiset(ProjectAll(db, a, cols)) == multiset(ProjectAll(db, b, cols))
    decreases |a|
  {
    if a == [] {
      assert |multiset(b)| == 0;
    } else {
      var n := |a| - 1;
      var e := a[n];
      assert e in multiset(b);
      var k :| 0 <= k < |b| && b[k] == e;
      RemoveOne(a, n);
      RemoveOne(b, k);
      var a', b' := a[..n] + a[n + 1..], b[..k] + b[k + 1..];
      SameBagSameProjection(db, a', b', cols);
      ProjectWithout(db, a, n, cols);
      ProjectWithout(db, b, k, cols);
    }
  }

  /** A plan over these tables that carries conditions equivalent to the query's returns, after projection,
      the rows of the filtered cross product, each as often. */
  lemma PlanMeansQuery(db: Tables, p: Plan, tables: seq<string>, conds: seq<Cond>, cols: seq<TabCol>)
    requires Apart(p) && WellPlaced(p) && NoDup(tables) && Tabs(p) == SetOf(tables)
    requires forall e :: MeetsAll(db, e, AllConds(p)) <==> MeetsAll(db, e, conds)
    ensures multiset(Exec(db, p)) == multiset(Filter(db, Cross(db, tables), conds))
    ensures multiset(ProjectAll(db, Exec(db, p), cols)) ==
      multiset(ProjectAll(db, Filter(db, Cross(db, tables), conds), cols))
  {
    var reference := Filter(db, Cross(db, tables), conds);
    ExecIs(db, p);
    CrossIs(db, tables);
    FilterIs(db, Cross(db, tables), conds);
    SameMembersSameBag(Exec(db, p), reference);
    SameBagSameProjection(db, Exec(db, p), reference, cols);
  }
}
