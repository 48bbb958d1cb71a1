/** The buffer pool as a value: frames, page table, free list, LRU list and the disk behind them. */
module PoolState {
  import opened Sequences

  type Data = seq<int>

  const INVALID_PAGE_ID := -1
  const ZEROS: Data := []

  datatype PageId = PageId(fd: int, no: int)

  datatype Frame = Frame(id: PageId, data: Data, dirty: bool, pin: int)
  {
    predicate InUse()
    {
      id.no != INVALID_PAGE_ID
    }
  }

  /** `disk` has the pages that were written, and `next` the page number each file hands out next. */
  datatype Pool = Pool(
    frames: seq<Frame>,
    table: map<PageId, int>,
    free: seq<int>,
    lru: seq<int>,
    disk: map<PageId, Data>,
    next: map<int, int>)

  // ---------- the disk, and what clients see ----------

  /** A file ends with the last page written to it. */
  predicate Readable(disk: map<PageId, Data>, p: PageId)
  {
    p.no >= 0 && exists q :: q in disk && q.fd == p.fd && q.no >= p.no
  }

  datatype Contents = Bytes(data: Data) | Missing

  /** Inside the file a page that was never written reads as zeros; beyond its end nothing can be read. */
  function OnDisk(disk: map<PageId, Data>, p: PageId): Contents
  {
    if p in disk then Bytes(disk[p]) else if Readable(disk, p) then Bytes(ZEROS) else Missing
  }

  /** What a client would get: the frame if the page is resident, else the disk. */
  function Logical(s: Pool, p: PageId): Contents
  {
    if p in s.table && 0 <= s.table[p] < |s.frames| then Bytes(s.frames[s.table[p]].data) else OnDisk(s.disk, p)
  }

  /** Contents stay, except that a page nobody could read may come to read as zeros when the file grows. */
  predicate Stays(was: Contents, now: Contents)
  {
    was == now || (was == Missing && now == Bytes(ZEROS))
  }

  ghost predicate SameContents(s: Pool, s': Pool)
  {
    forall p :: Stays(Logical(s, p), Logical(s', p))
  }

  /** The frame of the page differs from the disk and no dirty flag says so. */
  predicate Exposed(s: Pool, p: PageId)
  {
    && p in s.table && 0 <= s.table[p] < |s.frames|
    && !s.frames[s.table[p]].dirty && OnDisk(s.disk, p) != Bytes(s.frames[s.table[p]].data)
  }

  /** And no pin keeps the frame from being given to another page. */
  predicate AtRisk(s: Pool, p: PageId)
  {
    Exposed(s, p) && s.frames[s.table[p]].pin == 0
  }

  /** No page loses its contents but one that was at risk, and no other page comes to be at risk. */
  ghost predicate Keeps(s: Pool, s': Pool)
  {
    forall p :: !AtRisk(s, p) ==> Stays(Logical(s, p), Logical(s', p)) && !AtRisk(s', p)
  }

  lemma KeepsJoin(s: Pool, s': Pool, s'': Pool)
    requires Keeps(s, s') && Keeps(s', s'')
    ensures Keeps(s, s'')
  {
    forall p | !AtRisk(s, p) ensures Stays(Logical(s, p), Logical(s'', p)) && !AtRisk(s'', p) {
      assert !AtRisk(s', p);
    }
  }

  /** As long as no page is at risk nothing is lost. */
  ghost predicate Safe(s: Pool)
  {
    forall p :: !AtRisk(s, p)
  }

  lemma SafeKeepsAll(s: Pool, s': Pool)
    requires Safe(s) && Keeps(s, s')
    ensures Safe(s') && SameContents(s, s')
  {
    forall p ensures Stays(Logical(s, p), Logical(s', p)) && !AtRisk(s', p) {
      assert !AtRisk(s, p);
    }
  }

  /** A page that was written reads as written; before the last page of its file one that was not reads as zeros;
      beyond it nothing can be read. */
  lemma OnDiskMeans(disk: map<PageId, Data>, p: PageId)
    ensures p in disk ==> OnDisk(disk, p) == Bytes(disk[p])
    ensures p !in disk && p.no >= 0 && (exists q :: q in disk && q.fd == p.fd && q.no > p.no) ==>
      OnDisk(disk, p) == Bytes(ZEROS)
    ensures p !in disk && (p.no < 0 || forall q :: q in disk && q.fd == p.fd ==> q.no < p.no) ==>
      OnDisk(disk, p) == Missing
  {
    if p !in disk && Readable(disk, p) {
      var q :| q in disk && q.fd == p.fd && q.no >= p.no;
    }
  }

  /** A page with contents that is not at risk has the same contents afterwards. */
  lemma KeepsMeans(s: Pool, s': Pool, p: PageId, data: Data)
    requires Keeps(s, s') && !AtRisk(s, p) && Logical(s, p) == Bytes(data)
    ensures Logical(s', p) == Bytes(data) && !AtRisk(s', p)
  {}

  // ---------- invariant ----------

  /** The page table and the frames' page ids are inverse to each other. */
  ghost predicate TableOk(s: Pool)
  {
    && (forall p :: p in s.table ==> 0 <= s.table[p] < |s.frames| && s.frames[s.table[p]].id == p
                                     && p.no != INVALID_PAGE_ID)
    && (forall f :: 0 <= f < |s.frames| && s.frames[f].InUse() ==>
      s.frames[f].id in s.table && s.table[s.frames[f].id] == f)
  }

  /** Frames in the free list hold no page, those in the LRU list hold an unpinned one. */
  ghost predicate Placed(s: Pool, f: int)
    requires 0 <= f < |s.frames|
  {
    && s.frames[f].pin >= 0
    && (f in s.free ==> !s.frames[f].InUse())
    && (f in s.lru ==> s.frames[f].InUse() && s.frames[f].pin == 0)
    && (!s.frames[f].InUse() ==> s.frames[f].pin == 0 && !s.frames[f].dirty)
  }

  ghost predicate ListsOk(s: Pool)
  {
    && NoDup(s.free) && NoDup(s.lru) && AllBelow(s.free, |s.frames|) && AllBelow(s.lru, |s.frames|)
    && forall f :: 0 <= f < |s.frames| ==> Placed(s, f)
  }

  ghost predicate Ok(s: Pool)
  {
    TableOk(s) && ListsOk(s)
  }

  /** A frame nobody pinned that no list knows.  Only fetching its page again or dropping it brings it back. */
  ghost predicate Stranded(s: Pool, f: int)
  {
    0 <= f < |s.frames| && s.frames[f].pin == 0 && f !in s.free && f !in s.lru
  }

  ghost predicate StrandsNone(s: Pool, s': Pool)
  {
    forall f :: Stranded(s', f) ==> Stranded(s, f)
  }

  ghost predicate NoneStranded(s: Pool)
  {
    forall f :: !Stranded(s, f)
  }

  /** Free list, LRU list and pinned frames split the frames: each frame is in exactly one of the three. */
  ghost predicate Partitioned(s: Pool)
  {
    && NoDup(s.free) && NoDup(s.lru) && AllBelow(s.free, |s.frames|) && AllBelow(s.lru, |s.frames|)
    && forall f :: 0 <= f < |s.frames| ==> InOneOfThree(s, f)
  }

  ghost predicate InOneOfThree(s: Pool, f: int)
    requires 0 <= f < |s.frames|
  {
    var free, lru, pinned := f in s.free, f in s.lru, s.frames[f].pin > 0;
    (free || lru || pinned) && !(free && lru) && !(free && pinned) && !(lru && pinned)
  }

  /** The three split the frames exactly as long as no frame is stranded. */
  lemma FramesPartition(s: Pool)
    requires Ok(s)
    ensures Partitioned(s) <==> NoneStranded(s)
  {
    forall f | 0 <= f < |s.frames| ensures InOneOfThree(s, f) <==> !Stranded(s, f) {
      assert Placed(s, f);
    }
    if Partitioned(s) {
      forall f ensures !Stranded(s, f) {
        assert 0 <= f < |s.frames| ==> InOneOfThree(s, f);
      }
    }
  }

  predicate Allocated(s: Pool, p: PageId)
  {
    p.fd in s.next && 0 <= p.no < s.next[p.fd]
  }

  /** Only pages that were handed out are resident or have been written. */
  ghost predicate NothingBeyond(s: Pool)
  {
    && (forall p :: p in s.table ==> Allocated(s, p))
    && (forall p :: p in s.disk ==> Allocated(s, p))
  }

  // ---------- the steps every operation is made of ----------

  /** update_page: the frame's page goes back to disk if dirty, and the frame takes another page or none. */
  function Replace(s: Pool, f: int, id: PageId): Pool
    requires 0 <= f < |s.frames|
  {
    var was := s.frames[f];
    var disk := if was.InUse() && was.dirty then s.disk[was.id := was.data] else s.disk;
    var table := if was.InUse() then s.table - {was.id} else s.table;
    s.(frames := s.frames[f := Frame(id, ZEROS, false, 0)],
       disk := disk,
       table := if id.no != INVALID_PAGE_ID then table[id := f] else table)
  }

  /** A frame just taken from a list gets a page with these contents and one pin. */
  function Load(s: Pool, f: int, id: PageId, data: Data): Pool
    requires 0 <= f < |s.frames|
  {
    var r := Replace(s, f, id);
    r.(frames := r.frames[f := Frame(id, data, false, 1)])
  }

  /** One more pin on a resident page. */
  function Pinned(s: Pool, f: int): Pool
    requires 0 <= f < |s.frames|
  {
    s.(frames := s.frames[f := s.frames[f].(pin := s.frames[f].pin + 1)], lru := Without(s.lru, f))
  }

  function Unpinned(s: Pool, f: int, dirty: bool): Pool
    requires 0 <= f < |s.frames|
  {
    var fr := s.frames[f];
    s.(frames := s.frames[f := fr.(pin := fr.pin - 1, dirty := fr.dirty || dirty)],
       lru := if fr.pin == 1 then [f] + s.lru else s.lru)
  }

  function Flushed(s: Pool, f: int): Pool
    requires 0 <= f < |s.frames|
  {
    var fr := s.frames[f];
    s.(frames := s.frames[f := fr.(dirty := false)], disk := s.disk[fr.id := fr.data])
  }

  /** A frame whose page is dropped goes to the end of the free list. */
  function Dropped(s: Pool, f: int): Pool
    requires 0 <= f < |s.frames|
  {
    var r := Replace(s, f, PageId(s.frames[f].id.fd, INVALID_PAGE_ID));
    r.(lru := Without(s.lru, f), free := s.free + [f])
  }

  function Written(s: Pool, f: int, data: Data): Pool
    requires 0 <= f < |s.frames|
  {
    s.(frames := s.frames[f := s.frames[f].(data := data)])
  }

  // ---------- writing a page to disk ----------

  lemma DiskGrows(disk: map<PageId, Data>, q: PageId, data: Data, p: PageId)
    ensures OnDisk(disk[q := data], q) == Bytes(data)
    ensures p != q ==> Stays(OnDisk(disk, p), OnDisk(disk[q := data], p))
  {
    if Readable(disk, p) {
      var w :| w in disk && w.fd == p.fd && w.no >= p.no;
      assert w in disk[q := data];
    }
  }

  // ---------- taking a frame off the lists ----------

  /** The free list gives from its front, the LRU list from its back. */
  function TakeVictim(s: Pool): Pool
    requires s.free != [] || s.lru != []
  {
    if s.free != [] then s.(free := s.free[1..]) else s.(lru := s.lru[..|s.lru| - 1])
  }

  function Victim(s: Pool): int
    requires s.free != [] || s.lru != []
  {
    if s.free != [] then s.free[0] else s.lru[|s.lru| - 1]
  }

  /** The lists are in order, and `f` is an unpinned frame on neither. */
  ghost predicate Held(s: Pool, f: int)
  {
    ListsOk(s) && Stranded(s, f)
  }

  lemma VictimHeld(s: Pool)
    requires ListsOk(s) && (s.free != [] || s.lru != [])
    ensures Held(TakeVictim(s), Victim(s))
    ensures forall g :: g != Victim(s) && Stranded(TakeVictim(s), g) ==> Stranded(s, g)
  {
    var r, f := TakeVictim(s), Victim(s);
    if s.free != [] {
      assert s.free == [f] + r.free;
      assert f in s.free && Placed(s, f);
    } else {
      assert s.lru == r.lru + [f];
      assert f in s.lru && Placed(s, f);
    }
    forall g | 0 <= g < |s.frames| ensures Placed(r, g) {
      assert Placed(s, g);
    }
  }

  // ---------- a frame takes a page ----------

  lemma ReplaceKeepsTable(s: Pool, f: int, id: PageId)
    requires TableOk(s) && 0 <= f < |s.frames| && (id !in s.table || s.table[id] == f)
    ensures TableOk(Replace(s, f, id))
  {}

  /** Giving the frame away keeps its page exactly if a dirty flag or the disk covers what it holds. */
  lemma EvictionKeepsIfCovered(s: Pool, f: int, id: PageId)
    requires TableOk(s) && 0 <= f < |s.frames| && s.frames[f].InUse() && id !in s.table
    ensures var p := s.frames[f].id;
      && p !in Replace(s, f, id).table
      && (Logical(Replace(s, f, id), p) == Logical(s, p) <==> !Exposed(s, p))
  {
    DiskGrows(s.disk, s.frames[f].id, s.frames[f].data, s.frames[f].id);
  }

  /** Every other page stays as it is. */
  lemma ReplaceKeepsOthers(s: Pool, f: int, id: PageId, p: PageId)
    requires TableOk(s) && 0 <= f < |s.frames| && id !in s.table && p != id
    requires s.frames[f].InUse() ==> p != s.frames[f].id
    ensures Stays(Logical(s, p), Logical(Replace(s, f, id), p))
    ensures AtRisk(Replace(s, f, id), p) ==> AtRisk(s, p)
    ensures p in Replace(s, f, id).table <==> p in s.table
    ensures p in s.table ==> s.table[p] != f && Replace(s, f, id).table[p] == s.table[p]
  {
    DiskGrows(s.disk, s.frames[f].id, s.frames[f].data, p);
  }

  lemma ReplaceKeeps(s: Pool, f: int, id: PageId, p: PageId)
    requires TableOk(s) && 0 <= f < |s.frames| && s.frames[f].pin == 0 && id !in s.table && p != id
    requires !AtRisk(s, p)
    ensures Stays(Logical(s, p), Logical(Replace(s, f, id), p)) && !AtRisk(Replace(s, f, id), p)
    ensures p in Replace(s, f, id).table ==> Replace(s, f, id).table[p] != f
  {
    if s.frames[f].InUse() && p == s.frames[f].id {
      EvictionKeepsIfCovered(s, f, id);
    } else {
      ReplaceKeepsOthers(s, f, id, p);
    }
  }

  lemma ReplaceKeepsBeyond(s: Pool, f: int, id: PageId)
    requires TableOk(s) && NothingBeyond(s) && 0 <= f < |s.frames| && (id.no != INVALID_PAGE_ID ==> Allocated(s, id))
    ensures NothingBeyond(Replace(s, f, id))
  {
    assert s.frames[f].InUse() ==> s.frames[f].id in s.table;
  }

  lemma LoadLists(s: Pool, f: int, id: PageId, data: Data)
    requires Held(s, f) && id.no != INVALID_PAGE_ID
    ensures ListsOk(Load(s, f, id, data)) && !Stranded(Load(s, f, id, data), f)
    ensures forall g :: g != f && Stranded(Load(s, f, id, data), g) ==> Stranded(s, g)
  {
    var l := Load(s, f, id, data);
    forall g | 0 <= g < |s.frames| ensures Placed(l, g) {
      assert Placed(s, g);
    }
  }

  lemma ReplaceLists(s: Pool, f: int, id: PageId)
    requires Held(s, f)
    ensures ListsOk(Replace(s, f, id)) && Stranded(Replace(s, f, id), f)
    ensures forall g :: g != f && Stranded(Replace(s, f, id), g) ==> Stranded(s, g)
  {
    var r := Replace(s, f, id);
    forall g | 0 <= g < |s.frames| ensures Placed(r, g) {
      assert Placed(s, g);
    }
  }

  /** Loading a page keeps the pool in order, and every page's contents exactly if the page had these or nobody could
      read it. */
  lemma LoadOk(s: Pool, f: int, id: PageId, data: Data)
    requires Held(s, f) && TableOk(s) && id !in s.table && id.no != INVALID_PAGE_ID
    ensures Ok(Load(s, f, id, data))
    ensures Keeps(s, Load(s, f, id, data)) <==> Stays(Logical(s, id), Bytes(data))
  {
    var r, l := Replace(s, f, id), Load(s, f, id, data);
    ReplaceKeepsTable(s, f, id);
    LoadLists(s, f, id, data);
    assert Logical(l, id) == Bytes(data) && !AtRisk(l, id) && !AtRisk(s, id);
    forall p | p != id && !AtRisk(s, p) ensures Stays(Logical(s, p), Logical(l, p)) && !AtRisk(l, p) {
      ReplaceKeeps(s, f, id, p);
      assert Logical(l, p) == Logical(r, p) && AtRisk(l, p) == AtRisk(r, p);
    }
  }

  /** When the page cannot be read, the frame that was to hold it is left over: it has the page's number, no pin,
      and is on no list. */
  lemma ReadFailureStrands(s: Pool, f: int, id: PageId)
    requires Held(s, f) && TableOk(s) && id !in s.table
    ensures var r := Replace(s, f, id);
      && Ok(r) && r.frames[f] == Frame(id, ZEROS, false, 0) && Stranded(r, f)
      && (id.no != INVALID_PAGE_ID ==> id in r.table && r.table[id] == f)
      && (OnDisk(r.disk, id) == Missing ==> Logical(s, id) == Missing)
      && (forall p :: p != id && !AtRisk(s, p) ==> Stays(Logical(s, p), Logical(r, p)) && !AtRisk(r, p))
  {
    ReplaceKeepsTable(s, f, id);
    ReplaceLists(s, f, id);
    DiskGrows(s.disk, s.frames[f].id, s.frames[f].data, id);
    forall p | p != id && !AtRisk(s, p)
      ensures Stays(Logical(s, p), Logical(Replace(s, f, id), p)) && !AtRisk(Replace(s, f, id), p)
    {
      ReplaceKeeps(s, f, id, p);
    }
  }

  // ---------- pins ----------

  lemma PinnedOk(s: Pool, f: int)
    requires Ok(s) && 0 <= f < |s.frames| && s.frames[f].InUse()
    ensures Ok(Pinned(s, f)) && Keeps(s, Pinned(s, f)) && StrandsNone(s, Pinned(s, f))
    ensures forall p :: Logical(Pinned(s, f), p) == Logical(s, p)
  {
    var r := Pinned(s, f);
    WithoutIs(s.lru, f);
    assert Placed(s, f);
    forall g | 0 <= g < |r.frames| ensures Placed(r, g) {
      assert Placed(s, g);
    }
    forall i | 0 <= i < |r.lru| ensures 0 <= r.lru[i] < |r.frames| {
      assert r.lru[i] in r.lru;
    }
  }

  /** Unpinning changes no contents; it puts a page at risk exactly if the last pin goes while the page is exposed
      and the caller does not say that it is dirty. */
  lemma UnpinnedOk(s: Pool, f: int, dirty: bool)
    requires Ok(s) && 0 <= f < |s.frames| && s.frames[f].InUse() && s.frames[f].pin > 0
    ensures var r, p := Unpinned(s, f, dirty), s.frames[f].id;
      && Ok(r) && StrandsNone(s, r) && (forall q :: Logical(r, q) == Logical(s, q))
      && (AtRisk(r, p) <==> s.frames[f].pin == 1 && Exposed(s, p) && !dirty)
      && (forall q :: q != p ==> (AtRisk(r, q) <==> AtRisk(s, q)))
  {
    var r := Unpinned(s, f, dirty);
    assert Placed(s, f);
    forall g | 0 <= g < |r.frames| ensures Placed(r, g) {
      assert Placed(s, g);
    }
    forall q | q != s.frames[f].id && q in s.table ensures s.table[q] != f {}
  }

  /** What the last unpin and the next eviction leave of a page: it is kept exactly if a dirty flag was given, now or
      before, or the disk has the same. */
  lemma UnpinnedPageKept(s: Pool, f: int, dirty: bool, id: PageId)
    requires Ok(s) && 0 <= f < |s.frames| && s.frames[f].InUse() && s.frames[f].pin == 1
    requires id !in s.table
    ensures var p := s.frames[f].id;
      Logical(Replace(Unpinned(s, f, dirty), f, id), p) == Logical(s, p)
      <==> dirty || s.frames[f].dirty || OnDisk(s.disk, p) == Bytes(s.frames[f].data)
  {
    UnpinnedOk(s, f, dirty);
    EvictionKeepsIfCovered(Unpinned(s, f, dirty), f, id);
  }

  /** So a write is lost when the last pin goes without a dirty flag. */
  lemma CleanUnpinLosesWrite(s: Pool, f: int, data: Data, id: PageId)
    requires Ok(s) && 0 <= f < |s.frames| && s.frames[f].InUse() && s.frames[f].pin == 1 && !s.frames[f].dirty
    requires id !in s.table && OnDisk(s.disk, s.frames[f].id) != Bytes(data)
    ensures var p, w := s.frames[f].id, Written(s, f, data);
      && Logical(w, p) == Bytes(data)
      && Logical(Replace(Unpinned(w, f, false), f, id), p) != Bytes(data)
      && AtRisk(Unpinned(w, f, false), p)
  {
    var w := Written(s, f, data);
    WrittenOk(s, f, data);
    UnpinnedPageKept(w, f, false, id);
    UnpinnedOk(w, f, false);
  }

  // ---------- flushing, dropping, writing ----------

  lemma FlushedOk(s: Pool, f: int)
    requires Ok(s) && 0 <= f < |s.frames| && s.frames[f].InUse()
    ensures var r := Flushed(s, f);
      Ok(r) && SameContents(s, r) && Keeps(s, r) && StrandsNone(s, r) && !Exposed(r, s.frames[f].id)
  {
    var r, id := Flushed(s, f), s.frames[f].id;
    forall g | 0 <= g < |r.frames| ensures Placed(r, g) {
      assert Placed(s, g);
    }
    forall p ensures Stays(Logical(s, p), Logical(r, p)) && (AtRisk(r, p) ==> AtRisk(s, p)) {
      DiskGrows(s.disk, id, s.frames[f].data, p);
      assert p in s.table && p != id ==> s.table[p] != f;
    }
  }

  lemma DroppedLists(s: Pool, f: int)
    requires ListsOk(s) && 0 <= f < |s.frames| && s.frames[f].InUse() && s.frames[f].pin == 0
    ensures ListsOk(Dropped(s, f)) && StrandsNone(s, Dropped(s, f)) && !Stranded(Dropped(s, f), f)
  {
    var r := Dropped(s, f);
    assert Placed(s, f);
    WithoutIs(s.lru, f);
    forall g | 0 <= g < |r.frames| ensures Placed(r, g) {
      assert Placed(s, g);
    }
    forall i | 0 <= i < |r.lru| ensures 0 <= r.lru[i] < |r.frames| {
      assert r.lru[i] in r.lru;
    }
  }

  /** A dropped page is on disk as clients saw it, unless it was at risk. */
  lemma DroppedOk(s: Pool, f: int)
    requires Ok(s) && 0 <= f < |s.frames| && s.frames[f].InUse() && s.frames[f].pin == 0
    ensures Ok(Dropped(s, f)) && Keeps(s, Dropped(s, f)) && StrandsNone(s, Dropped(s, f))
  {
    var none := PageId(s.frames[f].id.fd, INVALID_PAGE_ID);
    var r, d := Replace(s, f, none), Dropped(s, f);
    assert none !in s.table;
    ReplaceKeepsTable(s, f, none);
    DroppedLists(s, f);
    forall p | !AtRisk(s, p) ensures Stays(Logical(s, p), Logical(d, p)) && !AtRisk(d, p) {
      if p != none {
        ReplaceKeeps(s, f, none, p);
      } else {
        DiskGrows(s.disk, s.frames[f].id, s.frames[f].data, p);
      }
    }
  }

  lemma WrittenOk(s: Pool, f: int, data: Data)
    requires Ok(s) && 0 <= f < |s.frames| && s.frames[f].InUse() && s.frames[f].pin > 0
    ensures var r := Written(s, f, data);
      && Ok(r) && StrandsNone(s, r) && (forall p :: AtRisk(r, p) <==> AtRisk(s, p))
      && (forall p :: Logical(r, p) == if p == s.frames[f].id then Bytes(data) else Logical(s, p))
  {
    var r := Written(s, f, data);
    forall g | 0 <= g < |r.frames| ensures Placed(r, g) {
      assert Placed(s, g);
    }
    forall p | p != s.frames[f].id && p in s.table ensures s.table[p] != f {}
  }

  // ---------- a new page ----------

  function NewId(s: Pool, fd: int): PageId
    requires fd in s.next
  {
    PageId(fd, s.next[fd])
  }

  function Handed(s: Pool, fd: int): Pool
    requires fd in s.next
  {
    s.(next := s.next[fd := s.next[fd] + 1])
  }

  /** Nobody has used the number the file hands out next. */
  predicate Unused(s: Pool, p: PageId)
  {
    p !in s.table && p !in s.disk && p.no != INVALID_PAGE_ID
  }

  /** A number handed out is of a page never seen before. */
  lemma HandedOk(s: Pool, fd: int)
    requires NothingBeyond(s) && fd in s.next && s.next[fd] >= 0
    ensures Unused(s, NewId(s, fd))
    ensures NothingBeyond(Handed(s, fd)) && Allocated(Handed(s, fd), NewId(s, fd))
  {
    assert !Allocated(s, NewId(s, fd));
  }
}
