/** Block nested-loop join: what it emits, in which order, and why the block size does not matter. */
module BlockJoin {
  import Q = Queries

  // ---------- what is emitted, written out ----------

  /** The matches of one right row with the block rows from `i` on. */
  function RowFrom<L, R>(p: (L, R) -> bool, block: seq<L>, i: nat, y: R): seq<(L, R)>
    requires i <= |block|
    decreases |block| - i
  {
    if i == |block| then []
    else (if p(block[i], y) then [(block[i], y)] else []) + RowFrom(p, block, i + 1, y)
  }

  /** Right row after right row from `j` on, each against the whole block. */
  function BlockFrom<L, R>(p: (L, R) -> bool, block: seq<L>, right: seq<R>, j: nat): seq<(L, R)>
    requires j <= |right|
    decreases |right| - j
  {
    if j == |right| then [] else RowFrom(p, block, 0, right[j]) + BlockFrom(p, block, right, j + 1)
  }

  function BlockEnd(n: nat, at: nat, capacity: nat): nat
    requires at <= n
  {
    if at + capacity < n then at + capacity else n
  }

  /** Block after block of left rows from `at` on. */
  function BlocksFrom<L, R>(p: (L, R) -> bool, left: seq<L>, right: seq<R>, capacity: nat, at: nat): seq<(L, R)>
    requires at <= |left| && capacity >= 1
    decreases |left| - at
  {
    if at == |left| then []
    else
      var next := BlockEnd(|left|, at, capacity);
      BlockFrom(p, left[at..next], right, 0) + BlocksFrom(p, left, right, capacity, next)
  }

  // ---------- the executor ----------

  class NestedLoopJoinExecutor<L, R(0)> {
    const p: (L, R) -> bool
    const left: seq<L>
    const right: seq<R>
    const capacity: nat
    var leftPos: nat
    var rightPos: nat
    var block: seq<L>
    var blockIdx: nat
    /** The right scan stands on a row, so right_tuple_ is set. */
    var hasRight: bool
    var isEnd: bool

    ghost predicate Shape()
      reads this
    {
      && capacity >= 1 && leftPos <= |left| && rightPos <= |right| && blockIdx <= |block|
      && (hasRight ==> rightPos < |right|)
    }

    /** What is still to be emitted. */
    ghost function Rest(): seq<(L, R)>
      reads this
      requires Shape()
    {
      if isEnd then []
      else if hasRight then
        RowFrom(p, block, blockIdx, right[rightPos]) + BlockFrom(p, block, right, rightPos + 1)
        + BlocksFrom(p, left, right, capacity, leftPos)
      else BlocksFrom(p, left, right, capacity, leftPos)
    }

    /** Between calls: at the end, or on a matching pair. */
    ghost predicate Valid()
      reads this
    {
      Shape() && (!isEnd ==> hasRight && blockIdx < |block| && p(block[blockIdx], right[rightPos]))
    }

    constructor (p: (L, R) -> bool, left: seq<L>, right: seq<R>, capacity: nat)
      requires capacity >= 1
      ensures this.p == p && this.left == left && this.right == right && this.capacity == capacity
      ensures Valid() && isEnd
    {
      this.p, this.left, this.right, this.capacity := p, left, right, capacity;
      leftPos, rightPos, block, blockIdx, hasRight, isEnd := 0, 0, [], 0, false, true;
    }

    method LoadNextLeftBlock() returns (any: bool)
      requires Shape()
      modifies this`block, this`blockIdx, this`leftPos
      ensures Shape() && blockIdx == 0
      ensures leftPos == BlockEnd(|left|, old(leftPos), capacity) && block == left[old(leftPos)..leftPos]
      ensures any <==> old(leftPos) < |left|
    {
      ghost var start := leftPos;
      block, blockIdx := [], 0;
      while leftPos < |left| && |block| < capacity
        invariant start <= leftPos <= |left| && block == left[start..leftPos] && |block| <= capacity && blockIdx == 0
      {
        block := block + [left[leftPos]];
        leftPos := leftPos + 1;
      }
      return block != [];
    }

    method BeginTuple()
      requires Shape()
      modifies this
      ensures Valid() && Rest() == BlocksFrom(p, left, right, capacity, 0)
    {
      isEnd, leftPos, rightPos, hasRight := false, 0, 0, false;
      NextBlock();
      AdvanceToNextMatch();
    }

    method NextTuple()
      requires Valid()
      modifies this
      ensures Valid()
      ensures !old(isEnd) ==> old(Rest()) == [(old(block)[old(blockIdx)], right[old(rightPos)])] + Rest()
      ensures old(isEnd) ==> isEnd
    {
      if isEnd {
        return;
      }
      Emitted(p, block, blockIdx, right, rightPos, BlocksFrom(p, left, right, capacity, leftPos));
      blockIdx := blockIdx + 1;
      AdvanceToNextMatch();
    }

    /** Loads the next block and restarts the right side; the join ends when either is empty. */
    method NextBlock()
      requires Shape() && !isEnd && !hasRight
      modifies this
      ensures Shape() && Rest() == old(Rest()) && (isEnd || hasRight)
      ensures !isEnd ==> leftPos > old(leftPos)
    {
      ghost var at := leftPos;
      var any := LoadNextLeftBlock();
      if !any {
        isEnd := true;
        return;
      }
      rightPos := 0;
      if |right| == 0 {
        NothingRight(p, left, right, capacity, at);
        isEnd := true;
        return;
      }
      hasRight := true;
    }

    /** Leaves a right row whose block rows are used up. */
    method NextRight()
      requires Shape() && !isEnd && hasRight && blockIdx == |block|
      modifies this
      ensures Shape() && !isEnd && Rest() == old(Rest()) && leftPos == old(leftPos) && block == old(block)
      ensures rightPos == old(rightPos) + 1 && (hasRight <==> rightPos < |right|)
    {
      UsedUp(p, block, right, rightPos, BlocksFrom(p, left, right, capacity, leftPos));
      blockIdx := 0;
      rightPos := rightPos + 1;
      if rightPos == |right| {
        hasRight := false;
      }
    }

    /** Looks through the rest of the block for a row that matches the right row. */
    method FindInBlock() returns (found: bool)
      requires Shape() && !isEnd && hasRight
      modifies this`blockIdx
      ensures Shape() && (found <==> blockIdx < |block|)
      ensures found ==> p(block[blockIdx], right[rightPos])
      ensures Rest() == old(Rest())
    {
      ghost var row := RowFrom(p, block, blockIdx, right[rightPos]);
      while blockIdx < |block|
        invariant blockIdx <= |block| && RowFrom(p, block, blockIdx, right[rightPos]) == row
      {
        if p(block[blockIdx], right[rightPos]) {
          return true;
        }
        blockIdx := blockIdx + 1;
      }
      return false;
    }

    /** Skips pairs that do not match; terminates on unread left rows, then right position, then block index. */
    method AdvanceToNextMatch()
      requires Shape() && (!isEnd ==> hasRight)
      modifies this
      ensures Valid() && Rest() == old(Rest())
    {
      ghost var rest := Rest();
      while !isEnd
        invariant Shape() && (!isEnd ==> hasRight) && Rest() == rest
        decreases !isEnd, |left| - leftPos, |right| - rightPos
      {
        var found := FindInBlock();
        if found {
          return;
        }
        MoveOn();
      }
    }

    /** The block is used up for this right row: the next right row, or the next block. */
    method MoveOn()
      requires Shape() && !isEnd && hasRight && blockIdx == |block|
      modifies this
      ensures Shape() && (!isEnd ==> hasRight) && Rest() == old(Rest())
      ensures !isEnd ==> leftPos > old(leftPos) || (leftPos == old(leftPos) && rightPos > old(rightPos))
    {
      NextRight();
      if !hasRight {
        NextBlock();
      }
    }
  }

  lemma UsedUp<L, R>(p: (L, R) -> bool, block: seq<L>, right: seq<R>, j: nat, tail: seq<(L, R)>)
    requires j < |right|
    ensures RowFrom(p, block, |block|, right[j]) + BlockFrom(p, block, right, j + 1) + tail ==
      if j + 1 < |right| then RowFrom(p, block, 0, right[j + 1]) + BlockFrom(p, block, right, j + 2) + tail else tail
  {
    assert RowFrom(p, block, |block|, right[j]) == [];
  }

  lemma Emitted<L, R>(p: (L, R) -> bool, block: seq<L>, i: nat, right: seq<R>, j: nat, tail: seq<(L, R)>)
    requires i < |block| && j < |right| && p(block[i], right[j])
    ensures RowFrom(p, block, i, right[j]) + BlockFrom(p, block, right, j + 1) + tail ==
      [(block[i], right[j])] + (RowFrom(p, block, i + 1, right[j]) + BlockFrom(p, block, right, j + 1) + tail)
  {}

  lemma {:induction false} NothingRight<L, R>(p: (L, R) -> bool, left: seq<L>, right: seq<R>, capacity: nat, at: nat)
    requires at <= |left| && capacity >= 1 && |right| == 0
    ensures BlocksFrom(p, left, right, capacity, at) == []
    decreases |left| - at
  {
    if at < |left| {
      NothingRight(p, left, right, capacity, BlockEnd(|left|, at, capacity));
    }
  }

  /** A whole run of the join. */
  method RunJoin<L, R(0)>(p: (L, R) -> bool, left: seq<L>, right: seq<R>, capacity: nat) returns (out: seq<(L, R)>)
    requires capacity >= 1
    ensures out == BlocksFrom(p, left, right, capacity, 0)
  {
    var join := new NestedLoopJoinExecutor(p, left, right, capacity);
    join.BeginTuple();
    ghost var all := BlocksFrom(p, left, right, capacity, 0);
    out := [];
    while !join.isEnd
      invariant join.Valid() && out + join.Rest() == all
      decreases |join.Rest()|, !join.isEnd
    {
      var pair := (join.block[join.blockIdx], join.right[join.rightPos]);
      ghost var rest := join.Rest();
      join.NextTuple();
      Shift(out, pair, join.Rest(), rest);
      out := out + [pair];
    }
  }

  lemma Shift<T>(out: seq<T>, x: T, rest: seq<T>, was: seq<T>)
    requires was == [x] + rest
    ensures out + was == out + [x] + rest
  {}

  /** The join emits each matching pair exactly as often as plain nested loops, whatever its block size. */
  method JoinIsNestedLoops<L, R(0)>(p: (L, R) -> bool, left: seq<L>, right: seq<R>, capacity: nat)
    returns (out: seq<(L, R)>)
    requires capacity >= 1
    ensures multiset(out) == multiset(Pairs(p, left, right))
  {
    BlocksArePairs(p, left, right, capacity, 0);
    assert left[0..] == left;
    out := RunJoin(p, left, right, capacity);
  }

  // ---------- against plain nested loops ----------

  function OneLeft<L, R>(p: (L, R) -> bool, x: L, right: seq<R>): seq<(L, R)>
    decreases |right|
  {
    if right == [] then []
    else OneLeft(p, x, right[..|right| - 1]) + if p(x, right[|right| - 1]) then [(x, right[|right| - 1])] else []
  }

  /** Every left row against every right row. */
  function Pairs<L, R>(p: (L, R) -> bool, left: seq<L>, right: seq<R>): seq<(L, R)>
    decreases |left|
  {
    if left == [] then [] else Pairs(p, left[..|left| - 1], right) + OneLeft(p, left[|left| - 1], right)
  }

  lemma {:induction false} PairsJoin<L, R>(p: (L, R) -> bool, a: seq<L>, b: seq<L>, right: seq<R>)
    ensures Pairs(p, a + b, right) == Pairs(p, a, right) + Pairs(p, b, right)
    decreases |b|
  {
    if b == [] {
      assert a + b == a;
    } else {
      assert (a + b)[..|a + b| - 1] == a + b[..|b| - 1];
      PairsJoin(p, a, b[..|b| - 1], right);
    }
  }

  /** A right row added on the left of the others adds its matches. */
  lemma {:induction false} OneLeftFirst<L, R>(p: (L, R) -> bool, x: L, y: R, ys: seq<R>)
    ensures OneLeft(p, x, [y] + ys) == (if p(x, y) then [(x, y)] else []) + OneLeft(p, x, ys)
    decreases |ys|
  {
    if ys == [] {
      assert [y] + ys == [y] && [y][..0] == [];
      assert OneLeft(p, x, []) == [];
    } else {
      assert ([y] + ys)[..|ys|] == [y] + ys[..|ys| - 1];
      OneLeftFirst(p, x, y, ys[..|ys| - 1]);
    }
  }

  lemma {:induction false} RowIsColumn<L, R>(p: (L, R) -> bool, block: seq<L>, y: R, ys: seq<R>)
    ensures multiset(Pairs(p, block, [y] + ys)) == multiset(RowFrom(p, block, 0, y)) + multiset(Pairs(p, block, ys))
    decreases |block|
  {
    if block != [] {
      var n := |block| - 1;
      RowIsColumn(p, block[..n], y, ys);
      OneLeftFirst(p, block[n], y, ys);
      RowSnoc(p, block, 0, y);
    }
  }

  lemma {:induction false} RowSnoc<L, R>(p: (L, R) -> bool, block: seq<L>, i: nat, y: R)
    requires i < |block|
    ensures var n := |block| - 1;
      RowFrom(p, block, i, y) == RowFrom(p, block[..n], i, y) + if p(block[n], y) then [(block[n], y)] else []
    decreases |block| - i
  {
    var n := |block| - 1;
    if i < n {
      RowSnoc(p, block, i + 1, y);
      assert block[..n][i] == block[i];
    } else {
      assert RowFrom(p, block, n + 1, y) == [];
    }
  }

  lemma {:induction false} BlockIsPairs<L, R>(p: (L, R) -> bool, block: seq<L>, right: seq<R>, j: nat)
    requires j <= |right|
    ensures multiset(BlockFrom(p, block, right, j)) == multiset(Pairs(p, block, right[j..]))
    decreases |right| - j
  {
    if j == |right| {
      NoPairs(p, block, right[j..]);
    } else {
      BlockIsPairs(p, block, right, j + 1);
      assert right[j..] == [right[j]] + right[j + 1..];
      RowIsColumn(p, block, right[j], right[j + 1..]);
    }
  }

  lemma {:induction false} NoPairs<L, R>(p: (L, R) -> bool, left: seq<L>, right: seq<R>)
    requires right == []
    ensures Pairs(p, left, right) == []
    decreases |left|
  {
    if left != [] {
      NoPairs(p, left[..|left| - 1], right);
    }
  }

  /** Whatever the capacity, each matching pair is emitted exactly as often as plain nested loops emit it. */
  lemma {:induction false} BlocksArePairs<L, R>(p: (L, R) -> bool, left: seq<L>, right: seq<R>, capacity: nat, at: nat)
    requires at <= |left| && capacity >= 1
    ensures multiset(BlocksFrom(p, left, right, capacity, at)) == multiset(Pairs(p, left[at..], right))
    decreases |left| - at
  {
    if at < |left| {
      var next := BlockEnd(|left|, at, capacity);
      var block := left[at..next];
      BlocksArePairs(p, left, right, capacity, next);
      BlockIsPairs(p, block, right, 0);
      assert right[0..] == right;
      SplitAt(left, at, next);
      PairsJoin(p, block, left[next..], right);
      var a, b := BlockFrom(p, block, right, 0), BlocksFrom(p, left, right, capacity, next);
      assert BlocksFrom(p, left, right, capacity, at) == a + b;
      SameBags(a, b, Pairs(p, block, right), Pairs(p, left[next..], right));
    }
  }

  lemma SplitAt<T>(s: seq<T>, i: nat, j: nat)
    requires i <= j <= |s|
    ensures s[i..] == s[i..j] + s[j..]
  {}

  lemma SameBags<T>(a: seq<T>, b: seq<T>, c: seq<T>, d: seq<T>)
    requires multiset(a) == multiset(c) && multiset(b) == multiset(d)
    ensures multiset(a + b) == multiset(c + d)
  {
  }

  // ---------- as a node of a query plan ----------

  function Merge(ps: seq<(Q.Env, Q.Env)>): seq<Q.Env>
  {
    if ps == [] then [] else Merge(ps[..|ps| - 1]) + [ps[|ps| - 1].0 + ps[|ps| - 1].1]
  }

  lemma {:induction false} MergeJoin(a: seq<(Q.Env, Q.Env)>, b: seq<(Q.Env, Q.Env)>)
    ensures Merge(a + b) == Merge(a) + Merge(b)
    decreases |b|
  {
    if b == [] {
      assert a + b == a;
    } else {
      assert (a + b)[..|a + b| - 1] == a + b[..|b| - 1];
      MergeJoin(a, b[..|b| - 1]);
    }
  }

  lemma {:induction false} OneLeftIsJoinOne(db: Q.Tables, l: Q.Env, rs: seq<Q.Env>, cs: seq<Q.Cond>,
                                            p: (Q.Env, Q.Env) -> bool)
    requires forall x, y :: p(x, y) <==> Q.MeetsAll(db, x + y, cs)
    ensures Merge(OneLeft(p, l, rs)) == Q.JoinOne(db, l, rs, cs)
    decreases |rs|
  {
    if rs != [] {
      var n := |rs| - 1;
      OneLeftIsJoinOne(db, l, rs[..n], cs, p);
      MergeJoin(OneLeft(p, l, rs[..n]), [(l, rs[n])]);
      assert Merge([(l, rs[n])]) == [l + rs[n]];
      assert OneLeft(p, l, rs[..n]) + [] == OneLeft(p, l, rs[..n]);
    }
  }

  /** The join of the plan semantics is the join executed here. */
  lemma {:induction false} PairsAreJoinRows(db: Q.Tables, ls: seq<Q.Env>, rs: seq<Q.Env>, cs: seq<Q.Cond>,
                                            p: (Q.Env, Q.Env) -> bool)
    requires forall x, y :: p(x, y) <==> Q.MeetsAll(db, x + y, cs)
    ensures Merge(Pairs(p, ls, rs)) == Q.JoinRows(db, ls, rs, cs)
    decreases |ls|
  {
    if ls != [] {
      var n := |ls| - 1;
      PairsAreJoinRows(db, ls[..n], rs, cs, p);
      OneLeftIsJoinOne(db, ls[n], rs, cs, p);
      MergeJoin(Pairs(p, ls[..n], rs), OneLeft(p, ls[n], rs));
    }
  }
}
