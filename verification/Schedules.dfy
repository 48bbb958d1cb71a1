/** What transactions did, in order, and how a write set is taken back. */
module Schedules {
  import opened Records

  /** A scan with the rows it saw, or one row write with the images before and after it. */
  datatype Op =
    | Read(table: int, view: Store)
    | Write(loc: Loc, before: Image, after: Image)
  {
    function Tab(): int
    {
      if Read? then table else loc.table
    }
  }

  function Do(s: Store, op: Op): Store
  {
    if op.Write? then Put(s, op.loc, op.after) else s
  }

  /** The operation would see now exactly what it is recorded to have seen. */
  predicate Sees(s: Store, op: Op)
  {
    if op.Write? then Get(s, op.loc) == op.before else Table(s, op.table) == op.view
  }

  function Replay(s: Store, ops: seq<Op>): Store
    decreases |ops|
  {
    if ops == [] then s else Do(Replay(s, ops[..|ops| - 1]), ops[|ops| - 1])
  }

  ghost predicate Faithful(s: Store, ops: seq<Op>)
    decreases |ops|
  {
    ops == [] || (Faithful(s, ops[..|ops| - 1]) && Sees(Replay(s, ops[..|ops| - 1]), ops[|ops| - 1]))
  }

  lemma ReplaySnoc(s: Store, ops: seq<Op>, op: Op)
    ensures Replay(s, ops + [op]) == Do(Replay(s, ops), op)
    ensures Faithful(s, ops + [op]) <==> Faithful(s, ops) && Sees(Replay(s, ops), op)
  {
    assert (ops + [op])[..|ops + [op]| - 1] == ops;
  }

  /** A replay leaves at each place the image of the last write there. */
  lemma ReplayMeans(s: Store, ops: seq<Op>, x: Loc)
    ensures ops == [] ==> Replay(s, ops) == s
    ensures ops != [] ==>
      var front, op := ops[..|ops| - 1], ops[|ops| - 1];
      Get(Replay(s, ops), x) == if op.Write? && op.loc == x then op.after else Get(Replay(s, front), x)
  {
    if ops != [] && ops[|ops| - 1].Write? {
      var op := ops[|ops| - 1];
      PutGet(Replay(s, ops[..|ops| - 1]), op.loc, op.after);
    }
  }

  /** Operation `i` finds, at its turn, what it found: a scan exactly its rows, a write the image under it. */
  ghost predicate FindsSame(s: Store, ops: seq<Op>, i: nat)
    requires i < |ops|
  {
    var now := Replay(s, ops[..i]);
    && (ops[i].Read? ==> ops[i].view == Table(now, ops[i].table))
    && (ops[i].Write? ==> ops[i].before == Get(now, ops[i].loc))
  }

  lemma FindsSameInPrefix(s: Store, ops: seq<Op>, n: nat, i: nat)
    requires i < n <= |ops|
    ensures FindsSame(s, ops[..n], i) <==> FindsSame(s, ops, i)
  {
    assert ops[..n][..i] == ops[..i];
  }

  /** A trace is faithful exactly if every operation finds what it found. */
  lemma {:induction false} FaithfulMeans(s: Store, ops: seq<Op>)
    ensures Faithful(s, ops) <==> forall i :: 0 <= i < |ops| ==> FindsSame(s, ops, i)
    decreases |ops|
  {
    if ops != [] {
      var n := |ops| - 1;
      var front := ops[..n];
      FaithfulMeans(s, front);
      forall i | 0 <= i < n ensures FindsSame(s, front, i) <==> FindsSame(s, ops, i) {
        FindsSameInPrefix(s, ops, n, i);
      }
      LastFinds(s, ops);
      assert (forall i :: 0 <= i < |ops| ==> FindsSame(s, ops, i)) <==>
        (forall i :: 0 <= i < |front| ==> FindsSame(s, front, i)) && FindsSame(s, ops, n);
    }
  }

  lemma LastFinds(s: Store, ops: seq<Op>)
    requires ops != []
    ensures Faithful(s, ops) <==> Faithful(s, ops[..|ops| - 1]) && FindsSame(s, ops, |ops| - 1)
  {}

  ghost predicate WritesTo(ops: seq<Op>, tab: int)
  {
    exists i :: 0 <= i < |ops| && ops[i].Write? && ops[i].loc.table == tab
  }

  ghost predicate WritesAt(ops: seq<Op>, x: Loc)
  {
    exists i :: 0 <= i < |ops| && ops[i].Write? && ops[i].loc == x
  }

  lemma {:induction false} ReplayKeepsPlace(s: Store, ops: seq<Op>, x: Loc)
    requires !WritesAt(ops, x)
    ensures Get(Replay(s, ops), x) == Get(s, x)
    decreases |ops|
  {
    if ops != [] {
      var n := |ops| - 1;
      var rest := ops[..n];
      forall i | 0 <= i < |rest| ensures !(rest[i].Write? && rest[i].loc == x) {
        assert rest[i] == ops[i];
      }
      ReplayKeepsPlace(s, rest, x);
      assert !(ops[n].Write? && ops[n].loc == x);
    }
  }

  lemma ReplayKeepsTable(s: Store, ops: seq<Op>, tab: int)
    requires !WritesTo(ops, tab)
    ensures AgreeOn(s, Replay(s, ops), tab)
  {
    forall x: Loc | x.table == tab ensures Get(s, x) == Get(Replay(s, ops), x) {
      ReplayKeepsPlace(s, ops, x);
    }
  }

  /** Writes are absolute, so replaying carries agreement along. */
  lemma {:induction false} ReplayAgrees(s: Store, s': Store, ops: seq<Op>, tab: int)
    requires AgreeOn(s, s', tab)
    ensures AgreeOn(Replay(s, ops), Replay(s', ops), tab)
    decreases |ops|
  {
    if ops != [] {
      var n := |ops| - 1;
      ReplayAgrees(s, s', ops[..n], tab);
      if ops[n].Write? {
        PutBoth(Replay(s, ops[..n]), Replay(s', ops[..n]), ops[n].loc, ops[n].after, tab);
      }
    }
  }

  /** A trace sees the same from any store that agrees on the tables it touches. */
  lemma {:induction false} FaithfulElsewhere(s: Store, s': Store, ops: seq<Op>)
    requires Faithful(s, ops)
    requires forall i :: 0 <= i < |ops| ==> AgreeOn(s, s', ops[i].Tab())
    ensures Faithful(s', ops)
    decreases |ops|
  {
    if ops != [] {
      var n := |ops| - 1;
      FaithfulElsewhere(s, s', ops[..n]);
      var op := ops[n];
      assert AgreeOn(s, s', op.Tab());
      ReplayAgrees(s, s', ops[..n], op.Tab());
      if op.Read? {
        SameTable(Replay(s, ops[..n]), Replay(s', ops[..n]), op.table);
      } else {
        assert op.loc.table == op.Tab();
      }
    }
  }

  // ---------- the write set of a transaction ----------

  datatype WriteRecord =
    | InsertTuple(loc: Loc)
    | DeleteTuple(loc: Loc, rec: Rec)
    | UpdateTuple(loc: Loc, rec: Rec)

  /** Taking back one write; an insert or update whose row is gone is skipped. */
  function UndoOne(s: Store, w: WriteRecord): Store
  {
    match w
    case InsertTuple(x) => if x in s then s - {x} else s
    case DeleteTuple(x, rec) => s[x := rec]
    case UpdateTuple(x, rec) => if x in s then s[x := rec] else s
  }

  /** The write set is popped from the back until it is empty. */
  function RollBack(s: Store, ws: seq<WriteRecord>): Store
    decreases |ws|
  {
    if ws == [] then s else RollBack(UndoOne(s, ws[|ws| - 1]), ws[..|ws| - 1])
  }

  /** Taking a write back removes the inserted row, puts the deleted one back, and restores the updated one. */
  lemma UndoMeans(s: Store, w: WriteRecord, y: Loc)
    ensures y != w.loc ==> Get(UndoOne(s, w), y) == Get(s, y)
    ensures w.InsertTuple? ==> w.loc !in UndoOne(s, w)
    ensures w.DeleteTuple? ==> Get(UndoOne(s, w), w.loc) == Present(w.rec)
    ensures w.UpdateTuple? ==> Get(UndoOne(s, w), w.loc) == if w.loc in s then Present(w.rec) else Absent
  {}

  lemma RollBackSnoc(s: Store, ws: seq<WriteRecord>, w: WriteRecord)
    ensures RollBack(s, ws + [w]) == RollBack(UndoOne(s, w), ws)
  {
    assert (ws + [w])[..|ws + [w]| - 1] == ws;
  }

  lemma UndoOneAgrees(s: Store, s': Store, w: WriteRecord, tab: int)
    requires AgreeOn(s, s', tab)
    ensures AgreeOn(UndoOne(s, w), UndoOne(s', w), tab)
  {
    forall y: Loc | y.table == tab ensures Get(UndoOne(s, w), y) == Get(UndoOne(s', w), y) {
      assert Get(s, y) == Get(s', y);
    }
  }

  lemma {:induction false} RollBackAgrees(s: Store, s': Store, ws: seq<WriteRecord>, tab: int)
    requires AgreeOn(s, s', tab)
    ensures AgreeOn(RollBack(s, ws), RollBack(s', ws), tab)
    decreases |ws|
  {
    if ws != [] {
      var n := |ws| - 1;
      UndoOneAgrees(s, s', ws[n], tab);
      RollBackAgrees(UndoOne(s, ws[n]), UndoOne(s', ws[n]), ws[..n], tab);
    }
  }

  lemma {:induction false} RollBackElsewhere(s: Store, ws: seq<WriteRecord>, tab: int)
    requires forall i :: 0 <= i < |ws| ==> ws[i].loc.table != tab
    ensures AgreeOn(s, RollBack(s, ws), tab)
    decreases |ws|
  {
    if ws != [] {
      var n := |ws| - 1;
      assert ws[n].loc.table != tab;
      var s' := UndoOne(s, ws[n]);
      assert AgreeOn(s, s', tab) by {
        forall y: Loc | y.table == tab ensures Get(s, y) == Get(s', y) {}
      }
      RollBackElsewhere(s', ws[..n], tab);
      AgreeTrans(s, s', RollBack(s', ws[..n]), tab);
    }
  }
}
