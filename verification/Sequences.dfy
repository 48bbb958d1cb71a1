/** Sequences without repetition. */
module Sequences {
  ghost predicate NoDup<T>(s: seq<T>)
  {
    forall i, j :: 0 <= i < j < |s| ==> s[i] != s[j]
  }

  lemma NoDupJoin<T>(a: seq<T>, b: seq<T>)
    requires NoDup(a) && NoDup(b) && forall x :: x in a ==> x !in b
    ensures NoDup(a + b)
  {
    var c := a + b;
    forall i, j | 0 <= i < j < |c| ensures c[i] != c[j] {
      if i < |a| <= j {
        assert c[i] in a && c[j] in b;
      }
    }
  }

  lemma {:induction false} SameMembersSameBag<T>(a: seq<T>, b: seq<T>)
    requires NoDup(a) && NoDup(b) && forall x :: x in a <==> x in b
    ensures multiset(a) == multiset(b)
  {
    forall x ensures multiset(a)[x] == multiset(b)[x] {
      CountOnce(a, x);
      CountOnce(b, x);
    }
  }

  lemma {:induction false} CountOnce<T>(s: seq<T>, x: T)
    requires NoDup(s)
    ensures multiset(s)[x] == if x in s then 1 else 0
  {
    if s != [] {
      var n := |s| - 1;
      assert s == s[..n] + [s[n]];
      CountOnce(s[..n], x);
    }
  }

  lemma RemoveOne<T>(s: seq<T>, k: nat)
    requires k < |s|
    ensures s == s[..k] + [s[k]] + s[k + 1..]
    ensures multiset(s[..k] + s[k + 1..]) == multiset(s) - multiset{s[k]}
  {
    assert s == s[..k] + [s[k]] + s[k + 1..];
  }

  ghost predicate AllBelow(l: seq<int>, n: int)
  {
    forall i :: 0 <= i < |l| ==> 0 <= l[i] < n
  }

  function Without(l: seq<int>, f: int): seq<int>
  {
    if l == [] then [] else if l[0] == f then l[1..] else [l[0]] + Without(l[1..], f)
  }

  lemma {:induction false} WithoutIs(l: seq<int>, f: int)
    requires NoDup(l)
    ensures NoDup(Without(l, f))
    ensures forall x :: x in Without(l, f) <==> x in l && x != f
  {
    if l != [] {
      if l[0] == f {
        assert forall x :: x in l <==> x == f || x in l[1..];
        assert f !in l[1..];
      } else {
        WithoutIs(l[1..], f);
        assert l[0] !in l[1..];
        assert forall x :: x in l <==> x == l[0] || x in l[1..];
      }
    }
  }

  /** A list without repetition of numbers below `n` that misses one of them is shorter than `n`. */
  lemma MissesOne(l: seq<int>, n: int, f: int)
    requires NoDup(l) && AllBelow(l, n) && 0 <= f < n && f !in l
    ensures |l| < n
  {
    NoDupFits([f] + l, n);
  }

  lemma {:induction false} NoDupFits(l: seq<int>, n: int)
    requires NoDup(l) && AllBelow(l, n) && n >= 0
    ensures |l| <= n
    decreases n
  {
    if l != [] {
      assert 0 <= l[0] < n;
      var rest := Without(l, n - 1);
      WithoutIs(l, n - 1);
      assert AllBelow(rest, n - 1) by {
        forall i | 0 <= i < |rest| ensures 0 <= rest[i] < n - 1 {
          assert rest[i] in rest;
        }
      }
      NoDupFits(rest, n - 1);
      WithoutLength(l, n - 1);
    }
  }

  lemma {:induction false} WithoutLength(l: seq<int>, f: int)
    ensures |Without(l, f)| == if f in l then |l| - 1 else |l|
  {
    if l != [] && l[0] != f {
      WithoutLength(l[1..], f);
      assert f in l <==> f in l[1..];
    }
  }

  lemma {:induction false} WithoutNothing(l: seq<int>, f: int)
    requires f !in l
    ensures Without(l, f) == l
  {
    if l != [] {
      assert l[0] != f && f !in l[1..];
      WithoutNothing(l[1..], f);
    }
  }

  /** As many different numbers below `n` as there are: all of them. */
  lemma AllPresent(l: seq<int>, n: int, x: int)
    requires NoDup(l) && AllBelow(l, n) && |l| == n && 0 <= x < n
    ensures x in l
  {
    if x !in l {
      MissesOne(l, n, x);
    }
  }
}
