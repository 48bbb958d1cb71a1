/** What a run of calls says about pins and about which page is given up. */
module PoolHistory {
  import opened Sequences
  import opened PoolState
  import opened PoolCalls

  // ---------- pins are counted ----------

  function PinOf(s: Pool, p: PageId): int
  {
    if Resident(s, p) then s.frames[s.table[p]].pin else 0
  }

  /** A fetch that got the page adds a pin, so does handing the page out; an unpin that was accepted takes one off. */
  ghost function PinsAfter(s: Pool, c: Call, p: PageId, was: int): int
  {
    if c == Fetch(p) && FetchResult(s, p).Fetched? then was + 1
    else if c.New? && c.fd in s.next && NewId(s, c.fd) == p && !NoVictims(s) then was + 1
    else if c.Unpin? && c.id == p && was > 0 then was - 1
    else was
  }

  ghost function Pins(s: Pool, cs: seq<Call>, p: PageId): int
  {
    if cs == [] then PinOf(s, p)
    else
      var front := cs[..|cs| - 1];
      PinsAfter(After(s, front), cs[|cs| - 1], p, Pins(s, front, p))
  }

  /** Pages other than the one whose frame is given away keep their frames. */
  lemma TakenElsewhere(s: Pool, f: int, id: PageId, data: Data, p: PageId)
    requires TableOk(s) && 0 <= f < |s.frames| && id !in s.table && s.frames[f].pin == 0 && p != id
    ensures PinOf(Load(s, f, id, data), p) == PinOf(s, p) && PinOf(Replace(s, f, id), p) == PinOf(s, p)
  {
    if s.frames[f].InUse() && p == s.frames[f].id {
      EvictionKeepsIfCovered(s, f, id);
      assert p !in Load(s, f, id, data).table;
    } else {
      ReplaceKeepsOthers(s, f, id, p);
    }
  }

  lemma VictimUnpinned(s: Pool)
    requires Ok(s) && !NoVictims(s)
    ensures var t := TakeVictim(s);
      && 0 <= Victim(s) < |s.frames| && s.frames[Victim(s)].pin == 0 && TableOk(t)
      && t.frames == s.frames && t.table == s.table
  {
    VictimHeld(s);
  }

  lemma FetchPins(s: Pool, id: PageId, p: PageId)
    requires Ok(s)
    ensures PinOf(FetchNext(s, id), p) == PinsAfter(s, Fetch(id), p, PinOf(s, p))
  {
    if id !in s.table && !NoVictims(s) {
      VictimUnpinned(s);
      var t, f := TakeVictim(s), Victim(s);
      if p != id {
        var g := GivenAway(s, id);
        TakenElsewhere(t, f, id, if ReadPage(g.disk, id).Bytes? then OnDisk(g.disk, id).data else ZEROS, p);
      }
    }
  }

  lemma NewPins(s: Pool, fd: int, p: PageId)
    requires Ok(s) && NothingBeyond(s) && fd in s.next && s.next[fd] >= 0
    ensures PinOf(NewNext(s, fd), p) == PinsAfter(s, New(fd), p, PinOf(s, p))
  {
    if !NoVictims(s) {
      VictimUnpinned(s);
      HandedOk(s, fd);
      if p != NewId(s, fd) {
        TakenElsewhere(TakeVictim(s), Victim(s), NewId(s, fd), ZEROS, p);
      }
    }
  }

  lemma CallPins(s: Pool, c: Call, p: PageId)
    requires Ok(s) && NothingBeyond(s) && Proper(s, c)
    ensures PinOf(Next(s, c), p) == PinsAfter(s, c, p, PinOf(s, p))
  {
    match c
    case Fetch(id) => FetchPins(s, id, p);
    case New(fd) => NewPins(s, fd, p);
    case Delete(id) =>
      if Resident(s, id) && s.frames[s.table[id]].pin == 0 {
        DropPins(s, id, p);
      }
    case Unpin(id, _) => assert Resident(s, p) && p != id && Resident(s, id) ==> s.table[p] != s.table[id];
    case Flush(id) => assert Resident(s, p) && p != id && Resident(s, id) ==> s.table[p] != s.table[id];
    case Write(id, _) => assert Resident(s, p) && p != id && Resident(s, id) ==> s.table[p] != s.table[id];
  }

  lemma DropPins(s: Pool, id: PageId, p: PageId)
    requires Ok(s) && Resident(s, id) && s.frames[s.table[id]].pin == 0
    ensures PinOf(Dropped(s, s.table[id]), p) == PinOf(s, p)
  {
    var none := PageId(id.fd, INVALID_PAGE_ID);
    assert none !in s.table;
    if p != none {
      TakenElsewhere(s, s.table[id], none, ZEROS, p);
    }
  }

  /** Over every run of proper calls the pin count of a page is the number of times it was fetched or handed out,
      less the number of times it was unpinned. */
  lemma {:induction false} PinsAreCounted(s: Pool, cs: seq<Call>, p: PageId)
    requires Ok(s) && NothingBeyond(s) && AllProper(s, cs)
    ensures Ok(After(s, cs)) && NothingBeyond(After(s, cs)) && PinOf(After(s, cs), p) == Pins(s, cs, p)
  {
    if cs != [] {
      var front := cs[..|cs| - 1];
      Shorter(s, cs);
      PinsAreCounted(s, front, p);
      CallKeepsOrder(After(s, front), cs[|cs| - 1]);
      CallPins(After(s, front), cs[|cs| - 1], p);
    }
  }

  /** So a resident page unpinned as often as it was fetched can be given up: it is on the LRU list. */
  lemma BalancedIsCandidate(s: Pool, cs: seq<Call>, p: PageId)
    requires Ok(s) && NothingBeyond(s) && NoneStranded(s) && AllProper(s, cs) && NoneFails(s, cs)
    requires Resident(After(s, cs), p)
    ensures After(s, cs).table[p] in After(s, cs).lru <==> Pins(s, cs, p) == 0
  {
    PinsAreCounted(s, cs, p);
    EveryRunPartitions(s, cs);
    var last := After(s, cs);
    assert InOneOfThree(last, last.table[p]) && Placed(last, last.table[p]);
  }

  // ---------- the page given up is the one released longest ago ----------

  function PageAt(frames: seq<Frame>, f: int): PageId
  {
    if 0 <= f < |frames| then frames[f].id else PageId(0, INVALID_PAGE_ID)
  }

  function PagesAt(frames: seq<Frame>, l: seq<int>): seq<PageId>
  {
    seq(|l|, i requires 0 <= i < |l| => PageAt(frames, l[i]))
  }

  /** The pages on the LRU list, front to back. */
  function LruPages(s: Pool): seq<PageId>
  {
    PagesAt(s.frames, s.lru)
  }

  /** The number of the call that took the last pin off the page, or -1. */
  ghost function ReleasedAt(s: Pool, cs: seq<Call>, p: PageId): int
  {
    if cs == [] then -1
    else
      var front, c := cs[..|cs| - 1], cs[|cs| - 1];
      if c.Unpin? && c.id == p && Pins(s, front, p) == 1 then |front| else ReleasedAt(s, front, p)
  }

  ghost predicate LatestFirst(s: Pool, cs: seq<Call>, ps: seq<PageId>)
  {
    && (forall i :: 0 <= i < |ps| ==> ReleasedAt(s, cs, ps[i]) < |cs|)
    && (forall i, j :: 0 <= i < j < |ps| ==> ReleasedAt(s, cs, ps[i]) > ReleasedAt(s, cs, ps[j]))
  }

  ghost predicate OneLess(ps: seq<PageId>, ps': seq<PageId>)
  {
    exists k :: 0 <= k < |ps| && IsCut(ps, ps', k)
  }

  ghost predicate IsCut(ps: seq<PageId>, ps': seq<PageId>, k: nat)
  {
    |ps'| + 1 == |ps| && forall i :: 0 <= i < |ps'| ==> ps'[i] == ps[if i < k then i else i + 1]
  }

  lemma {:induction false} WithoutCuts(l: seq<int>, f: int) returns (k: nat)
    ensures f in l ==> k < |l| && l[k] == f && Without(l, f) == l[..k] + l[k + 1..]
    ensures f !in l ==> Without(l, f) == l
  {
    k := 0;
    if l != [] && l[0] != f {
      var rest := l[1..];
      var j := WithoutCuts(rest, f);
      k := j + 1;
      assert l == [l[0]] + rest;
      if f in rest {
        assert l[..k] == [l[0]] + rest[..j] && l[k + 1..] == rest[j + 1..];
      }
    }
  }

  ghost predicate SameIds(frames: seq<Frame>, frames': seq<Frame>, l: seq<int>)
  {
    forall i :: 0 <= i < |l| ==> PageAt(frames', l[i]) == PageAt(frames, l[i])
  }

  lemma SamePages(frames: seq<Frame>, frames': seq<Frame>, l: seq<int>)
    requires SameIds(frames, frames', l)
    ensures PagesAt(frames', l) == PagesAt(frames, l)
  {}

  lemma CutOfPages(frames: seq<Frame>, l: seq<int>, k: nat)
    requires k < |l|
    ensures OneLess(PagesAt(frames, l), PagesAt(frames, l[..k] + l[k + 1..]))
  {
    assert IsCut(PagesAt(frames, l), PagesAt(frames, l[..k] + l[k + 1..]), k);
  }

  /** Taking a frame off the list takes its page off the list of pages. */
  lemma CutPages(frames: seq<Frame>, frames': seq<Frame>, l: seq<int>, f: int)
    requires NoDup(l) && |frames'| == |frames|
    requires forall g :: 0 <= g < |frames| && g != f ==> frames'[g].id == frames[g].id
    ensures var ps, ps' := PagesAt(frames, l), PagesAt(frames', Without(l, f)); ps' == ps || OneLess(ps, ps')
  {
    var k := WithoutCuts(l, f);
    WithoutIs(l, f);
    var rest := Without(l, f);
    forall i | 0 <= i < |rest| ensures PageAt(frames', rest[i]) == PageAt(frames, rest[i]) {
      assert rest[i] in rest;
    }
    SamePages(frames, frames', rest);
    if f in l {
      CutOfPages(frames, l, k);
    }
  }

  /** Taking the next frame leaves the pages in order; from the LRU list it takes the last. */
  lemma TakePages(s: Pool, s': Pool)
    requires Ok(s) && !NoVictims(s) && |s'.frames| == |s.frames| && s'.lru == TakeVictim(s).lru
    requires forall g :: 0 <= g < |s.frames| && g != Victim(s) ==> s'.frames[g].id == s.frames[g].id
    ensures LruPages(s') == LruPages(s) || OneLess(LruPages(s), LruPages(s'))
  {
    VictimHeld(s);
    var rest := s'.lru;
    forall i | 0 <= i < |rest| ensures PageAt(s'.frames, rest[i]) == PageAt(s.frames, rest[i]) {
      assert rest[i] in TakeVictim(s).lru;
    }
    SamePages(s.frames, s'.frames, rest);
    if s.free == [] {
      var n := |s.lru| - 1;
      assert s.lru[..n] + s.lru[n + 1..] == rest;
      CutOfPages(s.frames, s.lru, n);
    }
  }

  lemma FetchPages(s: Pool, id: PageId)
    requires Ok(s)
    ensures var ps, ps' := LruPages(s), LruPages(FetchNext(s, id)); ps' == ps || OneLess(ps, ps')
  {
    var s' := FetchNext(s, id);
    if Resident(s, id) {
      CutPages(s.frames, s'.frames, s.lru, s.table[id]);
    } else if !NoVictims(s) {
      VictimUnpinned(s);
      TakePages(s, s');
    }
  }

  lemma NewPages(s: Pool, fd: int)
    requires Ok(s) && fd in s.next
    ensures var ps, ps' := LruPages(s), LruPages(NewNext(s, fd)); ps' == ps || OneLess(ps, ps')
  {
    if !NoVictims(s) {
      VictimUnpinned(s);
      TakePages(s, NewNext(s, fd));
    }
  }

  /** Only the unpin that takes the last pin off a page adds to the list, at its front. */
  lemma LruCall(s: Pool, c: Call)
    requires Ok(s) && Proper(s, c)
    ensures var ps, ps' := LruPages(s), LruPages(Next(s, c));
      if c.Unpin? && PinOf(s, c.id) == 1 then ps' == [c.id] + ps && c.id !in ps else ps' == ps || OneLess(ps, ps')
  {
    var s' := Next(s, c);
    match c
    case Fetch(id) => FetchPages(s, id);
    case New(fd) => NewPages(s, fd);
    case Delete(id) =>
      if Resident(s, id) && s.frames[s.table[id]].pin == 0 {
        CutPages(s.frames, s'.frames, s.lru, s.table[id]);
      }
    case Unpin(id, _) => UnpinPages(s, c);
    case Flush(_) => SamePages(s.frames, s'.frames, s.lru);
    case Write(_, _) => SamePages(s.frames, s'.frames, s.lru);
  }

  lemma UnpinPages(s: Pool, c: Call)
    requires Ok(s) && c.Unpin?
    ensures var ps, ps' := LruPages(s), LruPages(Next(s, c));
      if PinOf(s, c.id) == 1 then ps' == [c.id] + ps && c.id !in ps else ps' == ps
  {
    var s', ps, ps' := Next(s, c), LruPages(s), LruPages(Next(s, c));
    if PinOf(s, c.id) == 1 {
      var f := s.table[c.id];
      forall i | 0 <= i < |ps| ensures ps'[i + 1] == ps[i] && ps[i] != c.id {
        assert s.lru[i] in s.lru && Placed(s, s.lru[i]);
      }
      assert ps' == [c.id] + ps;
    } else {
      assert ps' == ps;
    }
  }

  lemma CutKeepsOrder(s: Pool, cs: seq<Call>, ps: seq<PageId>, ps': seq<PageId>)
    requires LatestFirst(s, cs, ps) && OneLess(ps, ps')
    ensures LatestFirst(s, cs, ps')
  {
    var k :| 0 <= k < |ps| && IsCut(ps, ps', k);
    forall i | 0 <= i < |ps'| ensures ReleasedAt(s, cs, ps'[i]) < |cs| {
      assert ps'[i] == ps[if i < k then i else i + 1];
    }
    forall i, j | 0 <= i < j < |ps'| ensures ReleasedAt(s, cs, ps'[i]) > ReleasedAt(s, cs, ps'[j]) {
      assert ps'[i] == ps[if i < k then i else i + 1];
      assert ps'[j] == ps[if j < k then j else j + 1];
    }
  }

  lemma LaterCall(s: Pool, cs: seq<Call>, ps: seq<PageId>)
    requires cs != [] && LatestFirst(s, cs[..|cs| - 1], ps)
    requires forall i :: 0 <= i < |ps| ==> ReleasedAt(s, cs, ps[i]) == ReleasedAt(s, cs[..|cs| - 1], ps[i])
    ensures LatestFirst(s, cs, ps)
  {}

  /** Over every run that starts with an empty LRU list, the list has its pages in the order of their release. */
  lemma {:induction false} LruIsByRelease(s: Pool, cs: seq<Call>)
    requires Ok(s) && NothingBeyond(s) && s.lru == [] && AllProper(s, cs)
    ensures LatestFirst(s, cs, LruPages(After(s, cs)))
  {
    if cs != [] {
      var front, c := cs[..|cs| - 1], cs[|cs| - 1];
      var mid := After(s, front);
      Shorter(s, cs);
      LruIsByRelease(s, front);
      PinsAreCounted(s, front, if c.Unpin? then c.id else PageId(0, 0));
      LruCall(mid, c);
      ReleaseStep(s, cs, LruPages(mid), LruPages(Next(mid, c)));
    }
  }

  lemma ReleaseStep(s: Pool, cs: seq<Call>, ps: seq<PageId>, ps': seq<PageId>)
    requires cs != [] && LatestFirst(s, cs[..|cs| - 1], ps)
    requires var c := cs[|cs| - 1];
      if c.Unpin? && Pins(s, cs[..|cs| - 1], c.id) == 1 then ps' == [c.id] + ps && c.id !in ps
      else ps' == ps || OneLess(ps, ps')
    ensures LatestFirst(s, cs, ps')
  {
    var c := cs[|cs| - 1];
    LaterCall(s, cs, ps);
    if c.Unpin? && Pins(s, cs[..|cs| - 1], c.id) == 1 {
      ReleasedFirst(s, cs, ps, c.id);
    } else if ps' != ps {
      CutKeepsOrder(s, cs, ps, ps');
    }
  }

  lemma ReleasedFirst(s: Pool, cs: seq<Call>, ps: seq<PageId>, p: PageId)
    requires cs != [] && LatestFirst(s, cs, ps) && ReleasedAt(s, cs, p) == |cs| - 1
    requires forall i :: 0 <= i < |ps| ==> ReleasedAt(s, cs, ps[i]) < |cs| - 1
    ensures LatestFirst(s, cs, [p] + ps)
  {
    var ps' := [p] + ps;
    forall i | 0 <= i < |ps'| ensures ReleasedAt(s, cs, ps'[i]) < |cs| {
      assert i > 0 ==> ps'[i] == ps[i - 1];
    }
    forall i, j | 0 <= i < j < |ps'| ensures ReleasedAt(s, cs, ps'[i]) > ReleasedAt(s, cs, ps'[j]) {
      assert ps'[j] == ps[j - 1] && (i > 0 ==> ps'[i] == ps[i - 1]);
    }
  }

  /** When the free list is empty, the next victim's page is the one that was released longest ago. */
  lemma VictimIsOldest(s: Pool, cs: seq<Call>, last: Pool, p: PageId)
    requires Ok(s) && NothingBeyond(s) && s.lru == [] && AllProper(s, cs) && last == After(s, cs)
    requires last.free == [] && p in LruPages(last)
    ensures last.lru != []
    ensures var gone := PageAt(last.frames, Victim(last));
      gone in LruPages(last) && (p != gone ==> ReleasedAt(s, cs, gone) < ReleasedAt(s, cs, p))
  {
    LruIsByRelease(s, cs);
    OldestIsVictim(s, cs, last, p);
  }

  lemma OldestIsVictim(s: Pool, cs: seq<Call>, last: Pool, p: PageId)
    requires LatestFirst(s, cs, LruPages(last)) && last.free == [] && p in LruPages(last)
    ensures last.lru != []
    ensures var gone := PageAt(last.frames, Victim(last));
      gone in LruPages(last) && (p != gone ==> ReleasedAt(s, cs, gone) < ReleasedAt(s, cs, p))
  {
    VictimIsLast(last);
    LastIsOldest(s, cs, LruPages(last), p);
  }

  lemma VictimIsLast(s: Pool)
    requires s.free == [] && LruPages(s) != []
    ensures s.lru != [] && LruPages(s)[|LruPages(s)| - 1] == PageAt(s.frames, Victim(s))
  {}

  lemma LastIsOldest(s: Pool, cs: seq<Call>, ps: seq<PageId>, p: PageId)
    requires LatestFirst(s, cs, ps) && p in ps
    ensures p != ps[|ps| - 1] ==> ReleasedAt(s, cs, ps[|ps| - 1]) < ReleasedAt(s, cs, p)
  {}

  /** And that page leaves the pool when another is fetched. */
  lemma VictimLeaves(s: Pool, id: PageId)
    requires Ok(s) && s.free == [] && s.lru != [] && id !in s.table
    ensures var gone := PageAt(s.frames, Victim(s));
      gone in s.table && (gone != id ==> gone !in FetchNext(s, id).table)
  {
    VictimUnpinned(s);
    assert Victim(s) in s.lru && Placed(s, Victim(s));
    EvictionKeepsIfCovered(TakeVictim(s), Victim(s), id);
  }
}
