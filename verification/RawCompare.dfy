/** Comparing strings of any two lengths. */
module RawCompare {
  import opened KeyOrder

  predicate AllZero(s: seq<int>)
  {
    forall i :: 0 <= i < |s| ==> s[i] == 0
  }

  /** The common part byte by byte, then what is left of the longer one against zeros. */
  function CompareStrings(a: seq<int>, b: seq<int>): int
  {
    var n := if |a| < |b| then |a| else |b|;
    var cmp := MemCmp(a[..n], b[..n]);
    if cmp != 0 then cmp
    else if |a| == |b| then 0
    else if |a| > |b| then (if AllZero(a[n..]) then 0 else 1)
    else if AllZero(b[n..]) then 0 else -1
  }

  function Pad(s: seq<int>, n: nat): (t: seq<int>)
    requires |s| <= n
    ensures |t| == n
  {
    s + seq(n - |s|, _ => 0)
  }

  lemma {:induction false} MemCmpSplit(a: seq<int>, b: seq<int>, n: nat)
    requires |a| == |b| && n <= |a|
    ensures MemCmp(a, b) == if MemCmp(a[..n], b[..n]) != 0 then MemCmp(a[..n], b[..n]) else MemCmp(a[n..], b[n..])
  {
    if n > 0 {
      MemCmpSplit(a[1..], b[1..], n - 1);
      assert a[..n][1..] == a[1..][..n - 1] && b[..n][1..] == b[1..][..n - 1];
      assert a[1..][n - 1..] == a[n..] && b[1..][n - 1..] == b[n..];
    }
  }

  /** Against zeros a byte string is equal if it is all zeros, else greater. */
  lemma {:induction false} AgainstZeros(a: seq<int>, z: seq<int>)
    requires |a| == |z| && AreBytes(a) && AllZero(z)
    ensures Sign(MemCmp(a, z)) == if AllZero(a) then 0 else 1
    ensures Sign(MemCmp(z, a)) == if AllZero(a) then 0 else -1
  {
    if a != [] {
      AgainstZeros(a[1..], z[1..]);
      assert a == [a[0]] + a[1..];
    }
  }

  lemma {:induction false} SameIsZero(a: seq<int>)
    ensures MemCmp(a, a) == 0
  {
    if a != [] {
      SameIsZero(a[1..]);
    }
  }

  /** The result is that of comparing the strings padded with zeros to any common length. */
  lemma CompareIsPadded(a: seq<int>, b: seq<int>, n: nat)
    requires AreBytes(a) && AreBytes(b) && |a| <= n && |b| <= n
    ensures Sign(CompareStrings(a, b)) == Sign(MemCmp(Pad(a, n), Pad(b, n)))
  {
    var m := if |a| < |b| then |a| else |b|;
    var pa, pb := Pad(a, n), Pad(b, n);
    MemCmpSplit(pa, pb, m);
    assert pa[..m] == a[..m] && pb[..m] == b[..m];
    if |a| >= |b| {
      assert pa[m..] == Pad(a[m..], n - m);
      AgainstZeros(pa[m..], pb[m..]);
      PadZero(a[m..], n - m);
    } else {
      assert pb[m..] == Pad(b[m..], n - m);
      AgainstZeros(pb[m..], pa[m..]);
      PadZero(b[m..], n - m);
    }
  }

  lemma PadZero(s: seq<int>, n: nat)
    requires |s| <= n
    ensures AllZero(Pad(s, n)) <==> AllZero(s)
  {
    var t := Pad(s, n);
    assert forall i :: 0 <= i < |s| ==> t[i] == s[i];
  }

  /** The number a string stands for once padded orders strings as the comparison does. */
  lemma CompareIsRank(a: seq<int>, b: seq<int>, n: nat)
    requires AreBytes(a) && AreBytes(b) && |a| <= n && |b| <= n
    ensures AreBytes(Pad(a, n)) && AreBytes(Pad(b, n))
    ensures Sign(CompareStrings(a, b)) == Sign(BytesRank(Pad(a, n)) - BytesRank(Pad(b, n)))
  {
    CompareIsPadded(a, b, n);
    MemCmpIsRank(Pad(a, n), Pad(b, n));
  }

  /** A total preorder on strings of all lengths together. */
  lemma CompareIsPreorder(a: seq<int>, b: seq<int>, c: seq<int>)
    requires AreBytes(a) && AreBytes(b) && AreBytes(c)
    ensures CompareStrings(a, a) == 0
    ensures Sign(CompareStrings(a, b)) == -Sign(CompareStrings(b, a))
    ensures CompareStrings(a, b) <= 0 && CompareStrings(b, c) <= 0 ==> CompareStrings(a, c) <= 0
    ensures CompareStrings(a, b) == 0 && CompareStrings(b, c) == 0 ==> CompareStrings(a, c) == 0
  {
    var n := |a| + |b| + |c|;
    SameIsZero(a);
    assert a[..|a|] == a;
    CompareIsRank(a, b, n);
    CompareIsRank(b, a, n);
    CompareIsRank(b, c, n);
    CompareIsRank(a, c, n);
  }
}
