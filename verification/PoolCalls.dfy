/** What each call makes of the buffer pool, and what every run of calls keeps. */
module PoolCalls {
  import opened Sequences
  import opened PoolState

  datatype FetchAnswer = Fetched(frame: int) | NoFrame | ReadFailed

  predicate NoVictims(s: Pool)
  {
    s.free == [] && s.lru == []
  }

  /** The pool once the frame to be taken next has been given to the page. */
  ghost function GivenAway(s: Pool, id: PageId): Pool
    requires !NoVictims(s)
  {
    if 0 <= Victim(s) < |s.frames| then Replace(TakeVictim(s), Victim(s), id) else s
  }

  /** No file has a page with a negative number. */
  function ReadPage(disk: map<PageId, Data>, p: PageId): Contents
  {
    if p.no < 0 then Missing else OnDisk(disk, p)
  }

  /** Which way a fetch goes. */
  ghost function FetchResult(s: Pool, id: PageId): FetchAnswer
  {
    if id in s.table then Fetched(s.table[id])
    else if NoVictims(s) then NoFrame
    else if ReadPage(GivenAway(s, id).disk, id) == Missing then ReadFailed
    else Fetched(Victim(s))
  }

  /** The disk once the page in a frame has gone back to it, if it is dirty. */
  function WrittenBack(s: Pool, f: int): map<PageId, Data>
    requires 0 <= f < |s.frames|
  {
    if s.frames[f].InUse() && s.frames[f].dirty then s.disk[s.frames[f].id := s.frames[f].data] else s.disk
  }

  /** What a fetch promises. */
  ghost predicate FetchDone(s: Pool, s': Pool, id: PageId, r: FetchAnswer)
  {
    && r == FetchResult(s, id) && s'.next == s.next && |s'.frames| == |s.frames|
    && (NothingBeyond(s) && Allocated(s, id) ==> NothingBeyond(s'))
    && (r.NoFrame? ==> s' == s)
    && (r.Fetched? ==>
        && Keeps(s, s') && StrandsNone(s, s')
        && id in s'.table && s'.table[id] == r.frame && 0 <= r.frame < |s'.frames|
        && Stays(Logical(s, id), Bytes(s'.frames[r.frame].data))
        && (id in s.table ==>
          && s'.frames == s.frames[r.frame := s.frames[r.frame].(pin := s.frames[r.frame].pin + 1)]
          && s'.disk == s.disk && s'.free == s.free && r.frame !in s'.lru)
        && (id !in s.table ==>
          && s'.frames[r.frame].id == id && s'.frames[r.frame].pin == 1 && !s'.frames[r.frame].dirty
          && (forall g :: 0 <= g < |s.frames| && g != r.frame ==> s'.frames[g] == s.frames[g])
          && s'.disk == WrittenBack(s, r.frame)))
    && (r.ReadFailed? ==>
        && s' == GivenAway(s, id) && (id.no >= 0 ==> Logical(s, id) == Missing) && KeepsBut(s, s', id)
        && (id.no != INVALID_PAGE_ID ==> id in s'.table && s'.table[id] == Victim(s))
        && Stranded(s', Victim(s)) && forall g :: g != Victim(s) && Stranded(s', g) ==> Stranded(s, g))
  }

  ghost function FetchNext(s: Pool, id: PageId): Pool
  {
    if Resident(s, id) then Pinned(s, s.table[id])
    else if NoVictims(s) then s
    else
      var g, f := GivenAway(s, id), Victim(s);
      if ReadPage(g.disk, id) == Missing || !(0 <= f < |g.frames|) then g
      else g.(frames := g.frames[f := Frame(id, OnDisk(g.disk, id).data, false, 1)])
  }

  predicate Resident(s: Pool, p: PageId)
  {
    p in s.table && 0 <= s.table[p] < |s.frames|
  }

  ghost function NewNext(s: Pool, fd: int): Pool
    requires fd in s.next
  {
    if NoVictims(s) || !(0 <= Victim(s) < |s.frames|) then s
    else Handed(Load(TakeVictim(s), Victim(s), NewId(s, fd), ZEROS), fd)
  }

  /** What handing out a page promises: the pool stays in order exactly if the number is not resident in a frame
      other than the one taken, and then no page loses its contents exactly if the number reads as zeros or not at all.
      As long as only numbers handed out have been used, it is new. */
  ghost predicate NewDone(s: Pool, s': Pool, fd: int)
    requires fd in s.next && !NoVictims(s)
  {
    var id := NewId(s, fd);
    && (id.no >= 0 ==> (Ok(s') <==> id !in s.table || s.table[id] == Victim(s)))
    && (id.no >= 0 && id !in s.table ==>
        StrandsNone(s, s') && (Keeps(s, s') <==> Stays(Logical(s, id), Bytes(ZEROS))))
    && (NothingBeyond(s) && id.no >= 0 ==> NothingBeyond(s') && Unused(s, id) && Ok(s') && Keeps(s, s'))
  }

  ghost predicate KeepsBut(s: Pool, s': Pool, id: PageId)
  {
    forall p :: p != id && !AtRisk(s, p) ==> Stays(Logical(s, p), Logical(s', p)) && !AtRisk(s', p)
  }

  /** The page on disk is what clients see, and its frame knows it. */
  ghost predicate Saved(s: Pool, p: PageId)
  {
    p in s.table && 0 <= s.table[p] < |s.frames| && OnDisk(s.disk, p) == Logical(s, p) && !s.frames[s.table[p]].dirty
  }

  /** The pages of a file are on disk but for those still to be flushed. */
  ghost predicate FlushedSoFar(s: Pool, s': Pool, fd: int, ids: set<PageId>)
  {
    && SameContents(s, s') && Keeps(s, s') && StrandsNone(s, s')
    && s'.table == s.table && (NothingBeyond(s) ==> NothingBeyond(s'))
    && (forall p :: p in ids ==> p.fd == fd && p in s.table)
    && (forall p :: p in s.table && p.fd == fd && p !in ids ==> Saved(s', p))
  }

  lemma FlushStep(s: Pool, s': Pool, fd: int, ids: set<PageId>, p: PageId)
    requires Ok(s') && FlushedSoFar(s, s', fd, ids) && p in ids
    ensures Ok(Flushed(s', s'.table[p])) && FlushedSoFar(s, Flushed(s', s'.table[p]), fd, ids - {p})
  {
    var f := s'.table[p];
    var next := Flushed(s', f);
    FlushedOk(s', f);
    KeepsJoin(s, s', next);
    SameJoin(s, s', next);
    forall q | q in s.table && q.fd == fd && q !in ids - {p} ensures Saved(next, q) {
      FlushedIsSaved(s', f, q);
    }
  }

  lemma SameJoin(s: Pool, s': Pool, s'': Pool)
    requires SameContents(s, s') && SameContents(s', s'')
    ensures SameContents(s, s'')
  {
    forall p ensures Stays(Logical(s, p), Logical(s'', p)) {
      assert Stays(Logical(s, p), Logical(s', p));
    }
  }

  lemma FlushedIsSaved(s: Pool, f: int, p: PageId)
    requires TableOk(s) && 0 <= f < |s.frames| && s.frames[f].InUse()
    ensures Saved(s, p) || p == s.frames[f].id ==> Saved(Flushed(s, f), p)
  {
    DiskGrows(s.disk, s.frames[f].id, s.frames[f].data, p);
  }

  /** Without stranded frames there is no frame to be had exactly when all are pinned. */
  lemma NoVictim(s: Pool)
    requires ListsOk(s) && NoneStranded(s)
    ensures NoVictims(s) <==> forall g :: 0 <= g < |s.frames| ==> s.frames[g].pin > 0
  {
    if NoVictims(s) {
      forall g | 0 <= g < |s.frames| ensures s.frames[g].pin > 0 {
        assert Placed(s, g) && !Stranded(s, g);
      }
    }
    if s.free != [] {
      assert s.free[0] in s.free && Placed(s, s.free[0]);
    }
    if s.lru != [] {
      assert s.lru[0] in s.lru && Placed(s, s.lru[0]);
    }
  }

  lemma VictimIfAny(s: Pool)
    requires Ok(s) && !NoVictims(s)
    ensures var r := TakeVictim(s);
      && Held(r, Victim(s)) && TableOk(r) && 0 <= Victim(s) < |s.frames| && Victim(s) !in r.lru
      && (forall p :: Logical(r, p) == Logical(s, p) && (AtRisk(r, p) <==> AtRisk(s, p)))
      && (forall g :: g != Victim(s) && Stranded(r, g) ==> Stranded(s, g))
  {
    VictimHeld(s);
  }

  lemma VictimIsFrame(s: Pool)
    requires Ok(s) && !NoVictims(s)
    ensures 0 <= Victim(s) < |s.frames| && Victim(s) !in TakeVictim(s).lru
  {
    VictimHeld(s);
  }

  lemma FetchBeyond(s: Pool, id: PageId)
    requires Ok(s) && NothingBeyond(s) && Allocated(s, id)
    ensures NothingBeyond(FetchNext(s, id))
  {
    if id !in s.table && !NoVictims(s) {
      VictimIfAny(s);
      ReplaceKeepsBeyond(TakeVictim(s), Victim(s), id);
    }
  }

  lemma FetchOk(s: Pool, id: PageId)
    requires Ok(s)
    ensures Ok(FetchNext(s, id)) && FetchDone(s, FetchNext(s, id), id, FetchResult(s, id))
  {
    if id in s.table {
      PinnedOk(s, s.table[id]);
      PinnedMeans(s, s.table[id]);
    } else if FetchResult(s, id).ReadFailed? {
      FetchFails(s, id);
    } else if FetchResult(s, id).Fetched? {
      FetchSucceeds(s, id);
    }
    if NothingBeyond(s) && Allocated(s, id) {
      FetchBeyond(s, id);
    }
  }

  lemma FetchFails(s: Pool, id: PageId)
    requires Ok(s) && FetchResult(s, id).ReadFailed?
    ensures var g, f := GivenAway(s, id), Victim(s);
      && Ok(g) && (id.no != INVALID_PAGE_ID ==> id in g.table && g.table[id] == f) && Stranded(g, f)
      && (id.no >= 0 ==> Logical(s, id) == Missing) && KeepsBut(s, g, id)
      && (forall h :: h != f && Stranded(g, h) ==> Stranded(s, h))
  {
    VictimIfAny(s);
    ReadFailureStrands(TakeVictim(s), Victim(s), id);
    ReplaceLists(TakeVictim(s), Victim(s), id);
  }

  /** A page that was resident has one pin more and is off the LRU list; nothing else changes. */
  lemma PinnedMeans(s: Pool, f: int)
    requires Ok(s) && 0 <= f < |s.frames|
    ensures f !in Pinned(s, f).lru
    ensures Pinned(s, f).frames == s.frames[f := s.frames[f].(pin := s.frames[f].pin + 1)]
  {
    WithoutIs(s.lru, f);
  }

  lemma FetchSucceeds(s: Pool, id: PageId)
    requires Ok(s) && id !in s.table && FetchResult(s, id).Fetched?
    ensures var l, f := FetchNext(s, id), Victim(s);
      && Ok(l) && Keeps(s, l) && StrandsNone(s, l)
      && id in l.table && l.table[id] == f && 0 <= f < |l.frames| && l.frames[f].pin == 1
      && Stays(Logical(s, id), Bytes(l.frames[f].data))
      && l.frames[f].id == id && !l.frames[f].dirty
      && (forall g :: 0 <= g < |s.frames| && g != f ==> l.frames[g] == s.frames[g])
      && |l.frames| == |s.frames| && l.disk == WrittenBack(s, f)
  {
    VictimIfAny(s);
    var t, f := TakeVictim(s), Victim(s);
    var data := OnDisk(GivenAway(s, id).disk, id).data;
    DiskGrows(s.disk, s.frames[f].id, s.frames[f].data, id);
    assert FetchNext(s, id) == Load(t, f, id, data);
    LoadOk(t, f, id, data);
    LoadLists(t, f, id, data);
  }

  /** Counting on the number to hand out next touches nothing else. */
  lemma HandedSame(s: Pool, l: Pool, fd: int)
    requires fd in l.next
    ensures Ok(Handed(l, fd)) <==> Ok(l)
    ensures Keeps(s, Handed(l, fd)) <==> Keeps(s, l)
    ensures StrandsNone(s, Handed(l, fd)) <==> StrandsNone(s, l)
  {
    var h := Handed(l, fd);
    forall g | 0 <= g < |h.frames| ensures Placed(h, g) <==> Placed(l, g) {}
    forall g ensures Stranded(h, g) <==> Stranded(l, g) {}
    forall p ensures Logical(h, p) == Logical(l, p) && (AtRisk(h, p) <==> AtRisk(l, p)) {}
  }

  /** Two frames with one number, of which the page table knows only the new one. */
  lemma ResidentElsewhere(s: Pool, f: int, id: PageId)
    requires TableOk(s) && 0 <= f < |s.frames| && id in s.table && s.table[id] != f && id.no >= 0
    ensures !TableOk(Load(s, f, id, ZEROS))
  {
    var l, g := Load(s, f, id, ZEROS), s.table[id];
    assert l.frames[g].id == id && l.frames[g].InUse() && l.table[id] == f;
  }

  lemma LoadOkIf(s: Pool, f: int, id: PageId)
    requires Held(s, f) && TableOk(s) && id.no >= 0
    ensures Ok(Load(s, f, id, ZEROS)) <==> id !in s.table || s.table[id] == f
  {
    LoadLists(s, f, id, ZEROS);
    if id !in s.table || s.table[id] == f {
      ReplaceKeepsTable(s, f, id);
      assert TableOk(Load(s, f, id, ZEROS));
    } else {
      ResidentElsewhere(s, f, id);
    }
  }

  lemma NewOk(s: Pool, fd: int)
    requires Ok(s) && !NoVictims(s) && fd in s.next && s.next[fd] >= 0
    ensures 0 <= Victim(s) < |s.frames|
    ensures Ok(NewNext(s, fd)) <==> NewId(s, fd) !in s.table || s.table[NewId(s, fd)] == Victim(s)
  {
    VictimIfAny(s);
    LoadOkIf(TakeVictim(s), Victim(s), NewId(s, fd));
    HandedSame(s, Load(TakeVictim(s), Victim(s), NewId(s, fd), ZEROS), fd);
  }

  lemma NewKeeps(s: Pool, fd: int)
    requires Ok(s) && !NoVictims(s) && fd in s.next && s.next[fd] >= 0 && NewId(s, fd) !in s.table
    ensures StrandsNone(s, NewNext(s, fd))
    ensures Keeps(s, NewNext(s, fd)) <==> Stays(Logical(s, NewId(s, fd)), Bytes(ZEROS))
  {
    VictimIfAny(s);
    var t, id, f := TakeVictim(s), NewId(s, fd), Victim(s);
    LoadOk(t, f, id, ZEROS);
    LoadLists(t, f, id, ZEROS);
    var l := Load(t, f, id, ZEROS);
    assert Keeps(s, l) <==> Keeps(t, l);
    HandedSame(s, l, fd);
  }

  lemma NewInto(s: Pool, fd: int)
    requires Ok(s) && !NoVictims(s) && fd in s.next
    ensures NewDone(s, NewNext(s, fd), fd)
  {
    if s.next[fd] >= 0 {
      NewOk(s, fd);
      if NewId(s, fd) !in s.table {
        NewKeeps(s, fd);
      }
      if NothingBeyond(s) {
        NewBeyond(s, fd);
      }
    }
  }

  lemma NewReadsZeros(s: Pool, fd: int)
    requires Ok(s) && !NoVictims(s) && fd in s.next && s.next[fd] >= 0
    ensures Logical(NewNext(s, fd), NewId(s, fd)) == Bytes(ZEROS)
  {
    VictimIsFrame(s);
  }

  /** A failed fetch of the number handed out next leaves it in the page table, and the next new page then breaks it. */
  lemma FailedFetchSpoilsNewPage(s: Pool, fd: int)
    requires Ok(s) && fd in s.next && s.next[fd] >= 0 && FetchResult(s, NewId(s, fd)).ReadFailed?
    requires !NoVictims(FetchNext(s, NewId(s, fd)))
    ensures var after := FetchNext(s, NewId(s, fd)); fd in after.next && !Ok(NewNext(after, fd))
  {
    var after := FetchNext(s, NewId(s, fd));
    FetchOk(s, NewId(s, fd));
    NewOk(after, fd);
  }

  lemma NewBeyond(s: Pool, fd: int)
    requires TableOk(s) && !NoVictims(s) && 0 <= Victim(s) < |s.frames| && fd in s.next
    requires NothingBeyond(s) && s.next[fd] >= 0
    ensures Unused(s, NewId(s, fd))
    ensures NothingBeyond(Handed(Load(TakeVictim(s), Victim(s), NewId(s, fd), ZEROS), fd))
  {
    HandedOk(s, fd);
    var l, was := Handed(Load(TakeVictim(s), Victim(s), NewId(s, fd), ZEROS), fd), s.frames[Victim(s)];
    forall p | p in l.table ensures Allocated(l, p) {
      assert p != NewId(s, fd) ==> Allocated(s, p);
    }
    assert was.InUse() ==> Allocated(s, was.id);
    forall p | p in l.disk ensures Allocated(l, p) {
      assert Allocated(s, p);
    }
  }

  // ---------- runs of calls ----------

  /** What a client can ask of the pool; a store through a page pointer is one of the calls. */
  datatype Call =
    | Fetch(id: PageId)
    | Unpin(id: PageId, dirty: bool)
    | Flush(id: PageId)
    | New(fd: int)
    | Delete(id: PageId)
    | Write(id: PageId, data: Data)

  ghost function Next(s: Pool, c: Call): Pool
  {
    match c
    case Fetch(id) => FetchNext(s, id)
    case Unpin(id, dirty) =>
      if Resident(s, id) && s.frames[s.table[id]].pin > 0 then Unpinned(s, s.table[id], dirty) else s
    case Flush(id) => if Resident(s, id) then Flushed(s, s.table[id]) else s
    case New(fd) => if fd in s.next then NewNext(s, fd) else s
    case Delete(id) => if Resident(s, id) && s.frames[s.table[id]].pin == 0 then Dropped(s, s.table[id]) else s
    case Write(id, data) =>
      if Resident(s, id) && s.frames[s.table[id]].pin > 0 then Written(s, s.table[id], data) else s
  }

  ghost function After(s: Pool, cs: seq<Call>): Pool
  {
    if cs == [] then s else Next(After(s, cs[..|cs| - 1]), cs[|cs| - 1])
  }

  lemma AfterSnoc(s: Pool, cs: seq<Call>, c: Call)
    ensures After(s, cs + [c]) == Next(After(s, cs), c)
  {
    assert (cs + [c])[..|cs + [c]| - 1] == cs;
  }

  /** Pages are fetched by numbers that were handed out, and written while pinned. */
  ghost predicate Proper(s: Pool, c: Call)
  {
    && (c.Fetch? ==> Allocated(s, c.id))
    && (c.New? ==> c.fd in s.next && s.next[c.fd] >= 0)
    && (c.Write? ==> Resident(s, c.id) && s.frames[s.table[c.id]].pin > 0)
  }

  ghost predicate Fails(s: Pool, c: Call)
  {
    c.Fetch? && FetchResult(s, c.id).ReadFailed?
  }

  /** The last pin goes without a dirty flag over what the frame holds. */
  ghost predicate Careless(s: Pool, c: Call)
  {
    c.Unpin? && Exposed(s, c.id) && s.frames[s.table[c.id]].pin == 1 && !c.dirty
  }

  ghost predicate AllProper(s: Pool, cs: seq<Call>)
  {
    forall k :: 0 <= k < |cs| ==> Proper(After(s, cs[..k]), cs[k])
  }

  ghost predicate NoneFails(s: Pool, cs: seq<Call>)
  {
    forall k :: 0 <= k < |cs| ==> !Fails(After(s, cs[..k]), cs[k])
  }

  ghost predicate NoneCareless(s: Pool, cs: seq<Call>)
  {
    forall k :: 0 <= k < |cs| ==> !Careless(After(s, cs[..k]), cs[k])
  }

  lemma Shorter(s: Pool, cs: seq<Call>)
    requires cs != []
    ensures var front := cs[..|cs| - 1];
      && (AllProper(s, cs) ==> AllProper(s, front) && Proper(After(s, front), cs[|cs| - 1]))
      && (NoneFails(s, cs) ==> NoneFails(s, front) && !Fails(After(s, front), cs[|cs| - 1]))
      && (NoneCareless(s, cs) ==> NoneCareless(s, front) && !Careless(After(s, front), cs[|cs| - 1]))
  {
    var front := cs[..|cs| - 1];
    forall k | 0 <= k < |front| ensures front[..k] == cs[..k] && front[k] == cs[k] {}
  }

  lemma CallKeepsOrder(s: Pool, c: Call)
    requires Ok(s) && NothingBeyond(s) && Proper(s, c)
    ensures Ok(Next(s, c)) && NothingBeyond(Next(s, c)) && (!Fails(s, c) ==> StrandsNone(s, Next(s, c)))
  {
    match c
    case Fetch(id) => FetchOk(s, id);
    case Unpin(id, dirty) =>
      if Resident(s, id) && s.frames[s.table[id]].pin > 0 {
        UnpinnedOk(s, s.table[id], dirty);
      }
    case Flush(id) =>
      if Resident(s, id) {
        FlushedOk(s, s.table[id]);
      }
    case New(fd) =>
      if !NoVictims(s) {
        NewInto(s, fd);
      }
    case Delete(id) =>
      if Resident(s, id) && s.frames[s.table[id]].pin == 0 {
        DroppedOk(s, s.table[id]);
        ReplaceKeepsBeyond(s, s.table[id], PageId(id.fd, INVALID_PAGE_ID));
      }
    case Write(id, data) => WrittenOk(s, s.table[id], data);
  }

  /** What a call should leave of a page that held `was`. */
  ghost function Wanted(s: Pool, c: Call, p: PageId, was: Contents): Contents
  {
    if c.Write? && c.id == p then Bytes(c.data)
    else if c.New? && c.fd in s.next && NewId(s, c.fd) == p && !NoVictims(s) then Bytes(ZEROS)
    else was
  }

  lemma CallKeepsContents(s: Pool, c: Call)
    requires Ok(s) && NothingBeyond(s) && Proper(s, c) && Safe(s) && !Fails(s, c) && !Careless(s, c)
    ensures Safe(Next(s, c))
    ensures forall p :: Stays(Wanted(s, c, p, Logical(s, p)), Logical(Next(s, c), p))
  {
    match c
    case Fetch(id) =>
      FetchOk(s, id);
      SafeKeepsAll(s, Next(s, c));
    case Unpin(id, dirty) =>
      if Resident(s, id) && s.frames[s.table[id]].pin > 0 {
        UnpinnedOk(s, s.table[id], dirty);
      }
    case Flush(id) =>
      if Resident(s, id) {
        FlushedOk(s, s.table[id]);
        SafeKeepsAll(s, Next(s, c));
      }
    case New(fd) =>
      if !NoVictims(s) {
        NewInto(s, fd);
        SafeKeepsAll(s, Next(s, c));
        NewReadsZeros(s, fd);
      }
    case Delete(id) =>
      if Resident(s, id) && s.frames[s.table[id]].pin == 0 {
        DroppedOk(s, s.table[id]);
        SafeKeepsAll(s, Next(s, c));
      }
    case Write(id, data) => WrittenOk(s, s.table[id], data);
  }

  /** After every run of proper calls in which no read fails, each frame is in exactly one of the free list, the LRU
      list and the pinned frames. */
  lemma {:induction false} EveryRunPartitions(s: Pool, cs: seq<Call>)
    requires Ok(s) && NothingBeyond(s) && NoneStranded(s) && AllProper(s, cs) && NoneFails(s, cs)
    ensures Ok(After(s, cs)) && NothingBeyond(After(s, cs)) && NoneStranded(After(s, cs))
    ensures Partitioned(After(s, cs))
  {
    if cs != [] {
      Shorter(s, cs);
      EveryRunPartitions(s, cs[..|cs| - 1]);
      CallKeepsOrder(After(s, cs[..|cs| - 1]), cs[|cs| - 1]);
    }
    FramesPartition(After(s, cs));
  }

  /** What a page should hold: what was last written to it, zeros if it is new, or what it held. */
  ghost function Expected(s: Pool, cs: seq<Call>, p: PageId): Contents
  {
    if cs == [] then Logical(s, p)
    else
      var front := cs[..|cs| - 1];
      Wanted(After(s, front), cs[|cs| - 1], p, Expected(s, front, p))
  }

  /** Nobody fetches a page that was never written, never new and not there to begin with. */
  ghost predicate AllKnown(s: Pool, cs: seq<Call>)
  {
    forall k :: 0 <= k < |cs| && cs[k].Fetch? ==> Expected(s, cs[..k], cs[k].id) != Missing
  }

  /** A run of such calls whose clients are not careless either: no read fails, free list, LRU list and pinned frames
      split the frames, and every page holds what was last written to it, in whatever frames and on whatever disk it
      has been meanwhile. */
  lemma {:induction false} EveryRunServes(s: Pool, cs: seq<Call>)
    requires Ok(s) && NothingBeyond(s) && NoneStranded(s) && Safe(s)
    requires AllProper(s, cs) && NoneCareless(s, cs) && AllKnown(s, cs)
    ensures NoneFails(s, cs) && Partitioned(After(s, cs)) && Safe(After(s, cs))
    ensures forall p :: Stays(Expected(s, cs, p), Logical(After(s, cs), p))
    ensures forall p :: Expected(s, cs, p) != Missing ==> Logical(After(s, cs), p) == Expected(s, cs, p)
  {
    if cs != [] {
      var front, c := cs[..|cs| - 1], cs[|cs| - 1];
      Shorter(s, cs);
      assert AllKnown(s, front) by {
        forall k | 0 <= k < |front| && front[k].Fetch? ensures Expected(s, front[..k], front[k].id) != Missing {
          assert front[..k] == cs[..k];
        }
      }
      EveryRunServes(s, front);
      EveryRunPartitions(s, front);
      var mid := After(s, front);
      if c.Fetch? {
        assert Stays(Expected(s, front, c.id), Logical(mid, c.id));
        KnownIsRead(mid, c.id);
      }
      NoneFailsSnoc(s, cs);
      CallKeepsContents(mid, c);
      forall p ensures Stays(Expected(s, cs, p), Logical(After(s, cs), p)) {
        assert Stays(Expected(s, front, p), Logical(mid, p));
        assert Stays(Wanted(mid, c, p, Logical(mid, p)), Logical(Next(mid, c), p));
      }
    }
    EveryRunPartitions(s, cs);
  }

  lemma KnownIsRead(s: Pool, id: PageId)
    requires Ok(s) && id.no >= 0 && Logical(s, id) != Missing
    ensures !FetchResult(s, id).ReadFailed?
  {
    FetchOk(s, id);
  }

  lemma NoneFailsSnoc(s: Pool, cs: seq<Call>)
    requires cs != [] && NoneFails(s, cs[..|cs| - 1]) && !Fails(After(s, cs[..|cs| - 1]), cs[|cs| - 1])
    ensures NoneFails(s, cs)
  {
    var front := cs[..|cs| - 1];
    forall k | 0 <= k < |cs| ensures !Fails(After(s, cs[..k]), cs[k]) {
      assert k < |front| ==> front[..k] == cs[..k] && front[k] == cs[k];
    }
  }

  // ---------- the calls that go through a file ----------

  ghost function Deletes(order: seq<PageId>): seq<Call>
  {
    seq(|order|, i requires 0 <= i < |order| => Delete(order[i]))
  }

  ghost function Flushes(order: seq<PageId>): seq<Call>
  {
    seq(|order|, i requires 0 <= i < |order| => Flush(order[i]))
  }

  lemma OneMore(order: seq<PageId>, p: PageId)
    ensures Deletes(order + [p]) == Deletes(order) + [Delete(p)]
    ensures Flushes(order + [p]) == Flushes(order) + [Flush(p)]
  {}
}
