/** The sort executor: a multi-key order, its stable sorted sequence, and a limit. */
module Sorting {
  import opened Sequences
  import opened KeyOrder

  /** A row by the ranks of its columns. */
  type Row = seq<int>

  datatype SortKey = SortKey(col: nat, desc: bool)

  predicate KeysFit(keys: seq<SortKey>, width: nat)
  {
    forall i :: 0 <= i < |keys| ==> keys[i].col < width
  }

  predicate RowsFit(rows: seq<Row>, width: nat)
  {
    forall i :: 0 <= i < |rows| ==> |rows[i]| == width
  }

  /** The comparator handed to the sort: the first key on which the rows differ decides. */
  predicate Before(keys: seq<SortKey>, a: Row, b: Row)
    requires KeysFit(keys, |a|) && |a| == |b|
  {
    if keys == [] then false
    else
      var k := keys[0];
      var cmp := Sign(a[k.col] - b[k.col]);
      if cmp == 0 then Before(keys[1..], a, b) else if k.desc then cmp > 0 else cmp < 0
  }

  /** The compared columns, negated where the order is descending. */
  function KeyVector(keys: seq<SortKey>, a: Row): (v: seq<int>)
    requires KeysFit(keys, |a|)
    ensures |v| == |keys|
  {
    seq(|keys|, i requires 0 <= i < |keys| => if keys[i].desc then -a[keys[i].col] else a[keys[i].col])
  }

  lemma {:induction false} BeforeIsLex(keys: seq<SortKey>, a: Row, b: Row)
    requires KeysFit(keys, |a|) && |a| == |b|
    ensures Before(keys, a, b) <==> LexCmp(KeyVector(keys, a), KeyVector(keys, b)) < 0
  {
    if keys != [] {
      BeforeIsLex(keys[1..], a, b);
      assert KeyVector(keys, a)[1..] == KeyVector(keys[1..], a);
      assert KeyVector(keys, b)[1..] == KeyVector(keys[1..], b);
    }
  }

  lemma {:induction false} LexOrder(a: seq<int>, b: seq<int>, c: seq<int>)
    requires |a| == |b| == |c|
    ensures LexCmp(a, b) == -LexCmp(b, a)
    ensures LexCmp(a, b) == 0 <==> a == b
    ensures LexCmp(a, b) < 0 && LexCmp(b, c) < 0 ==> LexCmp(a, c) < 0
  {
    if a != [] {
      LexOrder(a[1..], b[1..], c[1..]);
      assert a == [a[0]] + a[1..] && b == [b[0]] + b[1..];
    }
  }

  /** One row before another: on the first key column in which they differ it has the smaller value, or the larger one
      where the order is descending. */
  lemma {:induction false} BeforeMeans(keys: seq<SortKey>, a: Row, b: Row)
    requires KeysFit(keys, |a|) && |a| == |b|
    ensures Before(keys, a, b) <==> exists m :: 0 <= m < |keys| && DecidedAt(keys, a, b, m)
  {
    if keys != [] {
      var rest := keys[1..];
      BeforeMeans(rest, a, b);
      assert forall i :: 0 <= i < |rest| ==> rest[i] == keys[i + 1];
      if Before(keys, a, b) && a[keys[0].col] == b[keys[0].col] {
        var m :| 0 <= m < |rest| && DecidedAt(rest, a, b, m);
        forall i | 0 <= i < m + 1 ensures a[keys[i].col] == b[keys[i].col] {
          assert i > 0 ==> keys[i] == rest[i - 1];
        }
        assert DecidedAt(keys, a, b, m + 1);
      } else if Before(keys, a, b) {
        assert DecidedAt(keys, a, b, 0);
      }
      if exists m :: 0 <= m < |keys| && DecidedAt(keys, a, b, m) {
        var m :| 0 <= m < |keys| && DecidedAt(keys, a, b, m);
        assert m > 0 ==> DecidedAt(rest, a, b, m - 1);
      }
    }
  }

  /** Key column `m` is the first in which the rows differ, and there the first row has the value that comes first. */
  ghost predicate DecidedAt(keys: seq<SortKey>, a: Row, b: Row, m: nat)
    requires KeysFit(keys, |a|) && |a| == |b| && m < |keys|
  {
    && (forall i :: 0 <= i < m ==> a[keys[i].col] == b[keys[i].col])
    && (if keys[m].desc then a[keys[m].col] > b[keys[m].col] else a[keys[m].col] < b[keys[m].col])
  }

  /** No row before itself, transitive, and "neither before the other" is transitive. */
  lemma StrictWeakOrder(keys: seq<SortKey>, a: Row, b: Row, c: Row)
    requires KeysFit(keys, |a|) && |a| == |b| == |c|
    ensures !Before(keys, a, a)
    ensures !(Before(keys, a, b) && Before(keys, b, a))
    ensures Before(keys, a, b) && Before(keys, b, c) ==> Before(keys, a, c)
    ensures !Before(keys, a, b) && !Before(keys, b, a) && !Before(keys, b, c) && !Before(keys, c, b) ==>
      !Before(keys, a, c) && !Before(keys, c, a)
  {
    var x, y, z := KeyVector(keys, a), KeyVector(keys, b), KeyVector(keys, c);
    BeforeIsLex(keys, a, a);
    BeforeIsLex(keys, a, b);
    BeforeIsLex(keys, b, a);
    BeforeIsLex(keys, b, c);
    BeforeIsLex(keys, c, b);
    BeforeIsLex(keys, a, c);
    BeforeIsLex(keys, c, a);
    LexOrder(x, y, z);
    LexOrder(y, z, x);
    LexOrder(x, z, y);
    LexOrder(x, x, x);
  }

  // ---------- the stable sorted sequence ----------

  /** Row `i` of the input comes out before row `j`: by the keys, or earlier when the keys do not decide. */
  predicate Comes(keys: seq<SortKey>, rows: seq<Row>, i: nat, j: nat)
    requires i < |rows| && j < |rows| && |rows[i]| == |rows[j]| && KeysFit(keys, |rows[i]|)
  {
    Before(keys, rows[i], rows[j]) || (!Before(keys, rows[j], rows[i]) && i < j)
  }

  lemma ComesOrder(keys: seq<SortKey>, rows: seq<Row>, width: nat, i: nat, j: nat, k: nat)
    requires RowsFit(rows, width) && KeysFit(keys, width) && i < |rows| && j < |rows| && k < |rows|
    ensures i != j ==> (Comes(keys, rows, i, j) <==> !Comes(keys, rows, j, i))
    ensures Comes(keys, rows, i, j) && Comes(keys, rows, j, k) ==> Comes(keys, rows, i, k)
    ensures !Comes(keys, rows, i, i)
  {
    ComesIsLex(keys, rows, width, i, j);
    ComesIsLex(keys, rows, width, j, i);
    ComesIsLex(keys, rows, width, j, k);
    ComesIsLex(keys, rows, width, i, k);
    ComesIsLex(keys, rows, width, i, i);
    var x, y, z := KeyVector(keys, rows[i]), KeyVector(keys, rows[j]), KeyVector(keys, rows[k]);
    LexOrder(x, y, z);
    LexOrder(y, z, x);
    LexOrder(x, x, x);
  }

  lemma ComesIsLex(keys: seq<SortKey>, rows: seq<Row>, width: nat, i: nat, j: nat)
    requires RowsFit(rows, width) && KeysFit(keys, width) && i < |rows| && j < |rows|
    ensures var cmp := LexCmp(KeyVector(keys, rows[i]), KeyVector(keys, rows[j]));
      Comes(keys, rows, i, j) <==> cmp < 0 || (cmp == 0 && i < j)
  {
    var x, y := KeyVector(keys, rows[i]), KeyVector(keys, rows[j]);
    BeforeIsLex(keys, rows[i], rows[j]);
    BeforeIsLex(keys, rows[j], rows[i]);
    LexOrder(x, y, x);
  }

  ghost predicate Indices(p: seq<nat>, n: nat)
  {
    |p| == n && (forall i :: 0 <= i < |p| ==> p[i] < n) && NoDup(p)
  }

  /** A rearrangement of the input positions in which everything comes in order: sorted and stable. */
  ghost predicate Sorted(keys: seq<SortKey>, rows: seq<Row>, width: nat, p: seq<nat>)
    requires RowsFit(rows, width) && KeysFit(keys, width)
  {
    && (forall i :: 0 <= i < |p| ==> p[i] < |rows|)
    && forall i, j :: 0 <= i < j < |p| ==> Comes(keys, rows, p[i], p[j])
  }

  ghost predicate StableSorted(keys: seq<SortKey>, rows: seq<Row>, width: nat, p: seq<nat>)
    requires RowsFit(rows, width) && KeysFit(keys, width)
  {
    Indices(p, |rows|) && Sorted(keys, rows, width, p)
  }

  /** Sorted by the keys, and rows the keys do not tell apart in the order of the input. */
  lemma StableMeans(keys: seq<SortKey>, rows: seq<Row>, width: nat, p: seq<nat>)
    requires RowsFit(rows, width) && KeysFit(keys, width) && StableSorted(keys, rows, width, p)
    ensures |p| == |rows| && (forall i :: 0 <= i < |p| ==> p[i] < |rows|) && NoDup(p)
    ensures forall i, j :: 0 <= i < j < |p| ==>
      !Before(keys, rows[p[j]], rows[p[i]]) && (Before(keys, rows[p[i]], rows[p[j]]) || p[i] < p[j])
  {
    forall i, j | 0 <= i < j < |p|
      ensures !Before(keys, rows[p[j]], rows[p[i]]) && (Before(keys, rows[p[i]], rows[p[j]]) || p[i] < p[j])
    {
      assert Comes(keys, rows, p[i], p[j]);
      StrictWeakOrder(keys, rows[p[i]], rows[p[j]], rows[p[i]]);
    }
  }

  /** There is only one: any algorithm that sorts stably gives the same rows in the same order. */
  lemma {:induction false} StableSortIsUnique(keys: seq<SortKey>, rows: seq<Row>, width: nat, p: seq<nat>, q: seq<nat>)
    requires RowsFit(rows, width) && KeysFit(keys, width)
    requires Sorted(keys, rows, width, p) && Sorted(keys, rows, width, q)
    requires |p| == |q| && forall x :: x in p <==> x in q
    ensures p == q
    decreases |p|
  {
    if p != [] {
      assert p[0] in q && q[0] in p;
      SameFirst(keys, rows, width, p, q);
      OthersDiffer(keys, rows, width, p);
      OthersDiffer(keys, rows, width, q);
      forall x ensures x in p[1..] <==> x in q[1..] {
        assert x in p <==> x == p[0] || x in p[1..];
        assert x in q <==> x == q[0] || x in q[1..];
      }
      StableSortIsUnique(keys, rows, width, p[1..], q[1..]);
      assert p == [p[0]] + p[1..] && q == [q[0]] + q[1..];
    }
  }

  lemma OneStableOrder(keys: seq<SortKey>, rows: seq<Row>, width: nat, p: seq<nat>, q: seq<nat>)
    requires RowsFit(rows, width) && KeysFit(keys, width)
    requires StableSorted(keys, rows, width, p) && StableSorted(keys, rows, width, q)
    ensures p == q
  {
    forall x ensures x in p <==> x in q {
      if 0 <= x < |rows| {
        AllPresent(p, |rows|, x);
        AllPresent(q, |rows|, x);
      }
    }
    StableSortIsUnique(keys, rows, width, p, q);
  }

  lemma SameFirst(keys: seq<SortKey>, rows: seq<Row>, width: nat, p: seq<nat>, q: seq<nat>)
    requires RowsFit(rows, width) && KeysFit(keys, width) && p != [] && q != []
    requires Sorted(keys, rows, width, p) && Sorted(keys, rows, width, q) && p[0] in q && q[0] in p
    ensures p[0] == q[0]
  {
    var i :| 0 <= i < |q| && q[i] == p[0];
    var j :| 0 <= j < |p| && p[j] == q[0];
    assert p[0] < |rows| && q[0] < |rows|;
    ComesOrder(keys, rows, width, p[0], q[0], p[0]);
  }

  lemma OthersDiffer(keys: seq<SortKey>, rows: seq<Row>, width: nat, p: seq<nat>)
    requires RowsFit(rows, width) && KeysFit(keys, width) && p != [] && Sorted(keys, rows, width, p)
    ensures p[0] !in p[1..] && Sorted(keys, rows, width, p[1..])
  {
    forall i | 0 < i < |p| ensures p[i] != p[0] {
      assert Comes(keys, rows, p[0], p[i]);
      ComesOrder(keys, rows, width, p[0], p[0], p[0]);
    }
  }

  // ---------- sorting by insertion ----------

  /** Row `n`, the last so far, goes after every row it does not have to come before. */
  method InsertLast(keys: seq<SortKey>, rows: seq<Row>, width: nat, p: seq<nat>, n: nat) returns (q: seq<nat>)
    requires RowsFit(rows, width) && KeysFit(keys, width) && n < |rows|
    requires Indices(p, n) && Sorted(keys, rows, width, p)
    ensures Indices(q, n + 1) && Sorted(keys, rows, width, q)
  {
    var at := |p|;
    while at > 0 && Before(keys, rows[n], rows[p[at - 1]])
      invariant 0 <= at <= |p|
      invariant forall i :: at <= i < |p| ==> p[i] < n && Comes(keys, rows, n, p[i])
    {
      at := at - 1;
    }
    EarlierComeFirst(keys, rows, width, p, n, at);
    q := p[..at] + [n] + p[at..];
    InsertedIndices(p, n, at);
    InsertedSorted(keys, rows, width, p, n, at);
  }

  lemma EarlierComeFirst(keys: seq<SortKey>, rows: seq<Row>, width: nat, p: seq<nat>, n: nat, at: nat)
    requires RowsFit(rows, width) && KeysFit(keys, width) && n < |rows| && at <= |p|
    requires Indices(p, n) && Sorted(keys, rows, width, p)
    requires at > 0 ==> !Before(keys, rows[n], rows[p[at - 1]])
    ensures forall i :: 0 <= i < at ==> Comes(keys, rows, p[i], n)
  {
    if at > 0 {
      forall i | 0 <= i < at ensures Comes(keys, rows, p[i], n) {
        assert i < at - 1 ==> Comes(keys, rows, p[i], p[at - 1]);
        ComesOrder(keys, rows, width, p[i], p[at - 1], n);
      }
    }
  }

  lemma InsertedIndices(p: seq<nat>, n: nat, at: nat)
    requires Indices(p, n) && at <= |p|
    ensures Indices(p[..at] + [n] + p[at..], n + 1)
  {
  }

  lemma InsertedSorted(keys: seq<SortKey>, rows: seq<Row>, width: nat, p: seq<nat>, n: nat, at: nat)
    requires RowsFit(rows, width) && KeysFit(keys, width) && n < |rows| && at <= |p| && Sorted(keys, rows, width, p)
    requires forall i :: 0 <= i < at ==> p[i] < |rows| && Comes(keys, rows, p[i], n)
    requires forall i :: at <= i < |p| ==> p[i] < |rows| && Comes(keys, rows, n, p[i])
    ensures Sorted(keys, rows, width, p[..at] + [n] + p[at..])
  {
    var q := p[..at] + [n] + p[at..];
    forall i, j | 0 <= i < j < |q| ensures q[i] < |rows| && q[j] < |rows| && Comes(keys, rows, q[i], q[j]) {
      var a, b := if i < at then i else i - 1, if j < at then j else j - 1;
      assert i != at ==> q[i] == p[a] && p[a] < |rows|;
      assert j != at ==> q[j] == p[b] && p[b] < |rows|;
    }
  }

  method StableSort(keys: seq<SortKey>, rows: seq<Row>, width: nat) returns (p: seq<nat>)
    requires RowsFit(rows, width) && KeysFit(keys, width)
    ensures StableSorted(keys, rows, width, p)
  {
    p := [];
    for n := 0 to |rows|
      invariant Indices(p, n) && Sorted(keys, rows, width, p)
    {
      p := InsertLast(keys, rows, width, p, n);
    }
  }

  /** Without keys the stable order is the input order. */
  lemma NoKeysNoChange(rows: seq<Row>, width: nat)
    requires RowsFit(rows, width)
    ensures StableSorted([], rows, width, seq(|rows|, i => i))
  {}

  // ---------- the executor ----------

  class SortExecutor {
    const keys: seq<SortKey>
    const width: nat
    const limit: int
    var records: seq<Row>
    var cursor: nat

    constructor (keys: seq<SortKey>, width: nat, limit: int)
      ensures this.keys == keys && this.width == width && this.limit == limit && records == [] && cursor == 0
    {
      this.keys, this.width, this.limit := keys, width, limit;
      records, cursor := [], 0;
    }

    /** Reads all input and keeps the first `limit` rows of its stable sorted sequence; a negative limit keeps all. */
    method BeginTuple(input: seq<Row>) returns (ghost p: seq<nat>)
      requires RowsFit(input, width) && KeysFit(keys, width)
      modifies this
      ensures cursor == 0 && StableSorted(keys, input, width, p)
      ensures |p| == |input| && (forall i :: 0 <= i < |p| ==> p[i] < |input|) && NoDup(p)
      ensures |records| == if 0 <= limit < |input| then limit else |input|
      ensures forall i :: 0 <= i < |records| ==> records[i] == input[p[i]]
      ensures forall i, j :: 0 <= i < j < |p| ==>
        !Before(keys, input[p[j]], input[p[i]]) && (Before(keys, input[p[i]], input[p[j]]) || p[i] < p[j])
    {
      records, cursor := input, 0;
      NoKeysNoChange(input, width);
      p := seq(|input|, i => i);
      if keys != [] {
        var order := StableSort(keys, input, width);
        p := order;
        records := Picked(input, order);
      }
      assert records == Picked(input, p);
      StableMeans(keys, input, width, p);
      if 0 <= limit < |records| {
        records := records[..limit];
      }
    }

    predicate IsEnd()
      reads this
    {
      cursor >= |records|
    }

    method NextTuple()
      modifies this`cursor
      ensures cursor == if old(cursor) < |records| then old(cursor) + 1 else old(cursor)
      ensures IsEnd() <==> |records| <= cursor
    {
      if cursor < |records| {
        cursor := cursor + 1;
      }
    }
  }

  function Picked(rows: seq<Row>, p: seq<nat>): seq<Row>
    requires forall i :: 0 <= i < |p| ==> p[i] < |rows|
  {
    seq(|p|, i requires 0 <= i < |p| => rows[p[i]])
  }
}
