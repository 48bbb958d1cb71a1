/** The rows of every table as one finite map from where a row lies to its bytes. */
module Records {
  import opened Rids

  datatype Loc = Loc(table: int, rid: Rid)
  type Rec = seq<int>
  type Store = map<Loc, Rec>

  /** What one place holds. */
  datatype Image = Absent | Present(rec: Rec)

  function Get(s: Store, x: Loc): Image
  {
    if x in s then Present(s[x]) else Absent
  }

  function Put(s: Store, x: Loc, v: Image): Store
  {
    match v
    case Absent => s - {x}
    case Present(rec) => s[x := rec]
  }

  lemma PutGet(s: Store, x: Loc, v: Image)
    ensures Get(Put(s, x, v), x) == v
    ensures forall y :: y != x ==> Get(Put(s, x, v), y) == Get(s, y)
    ensures Put(s, x, Get(s, x)) == s
  {}

  lemma SameStore(s: Store, s': Store)
    requires forall x :: Get(s, x) == Get(s', x)
    ensures s == s'
  {
    forall x ensures x in s <==> x in s' {
      assert Get(s, x) == Get(s', x);
    }
    forall x | x in s ensures s[x] == s'[x] {
      assert Get(s, x) == Get(s', x);
    }
  }

  /** One table, as a scan under its lock sees it. */
  function Table(s: Store, tab: int): Store
  {
    map x | x in s && x.table == tab :: s[x]
  }

  lemma TableMeans(s: Store, tab: int, x: Loc)
    ensures x in Table(s, tab) <==> x in s && x.table == tab
    ensures x in Table(s, tab) ==> Table(s, tab)[x] == s[x]
  {}

  ghost predicate AgreeOn(s: Store, s': Store, tab: int)
  {
    forall x: Loc :: x.table == tab ==> Get(s, x) == Get(s', x)
  }

  lemma SameTable(s: Store, s': Store, tab: int)
    requires AgreeOn(s, s', tab)
    ensures Table(s, tab) == Table(s', tab)
  {
    forall x: Loc | x.table == tab ensures x in s <==> x in s' {
      assert Get(s, x) == Get(s', x);
    }
    forall x: Loc | x.table == tab && x in s ensures s[x] == s'[x] {
      assert Get(s, x) == Get(s', x);
    }
  }

  lemma PutElsewhere(s: Store, x: Loc, v: Image, tab: int)
    requires x.table != tab
    ensures AgreeOn(s, Put(s, x, v), tab)
  {
    PutGet(s, x, v);
  }

  lemma PutBoth(s: Store, s': Store, x: Loc, v: Image, tab: int)
    requires AgreeOn(s, s', tab)
    ensures AgreeOn(Put(s, x, v), Put(s', x, v), tab)
  {
    forall y: Loc | y.table == tab ensures Get(Put(s, x, v), y) == Get(Put(s', x, v), y) {
      assert Get(s, y) == Get(s', y);
      PutGet(s, x, v);
      PutGet(s', x, v);
    }
  }

  lemma AgreeTrans(a: Store, b: Store, c: Store, tab: int)
    requires AgreeOn(a, b, tab) && AgreeOn(b, c, tab)
    ensures AgreeOn(a, c, tab)
  {
    forall x: Loc | x.table == tab ensures Get(a, x) == Get(c, x) {
      assert Get(a, x) == Get(b, x) && Get(b, x) == Get(c, x);
    }
  }
}
