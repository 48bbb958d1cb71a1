/** The LRU replacer and the buffer pool manager. */
module BufferPool {
  import opened Sequences
  import opened PoolState
  import opened PoolCalls

  class LRUReplacer {
    /** Most recently unpinned first. */
    var list: seq<int>
    var hash: set<int>
    const max: int

    ghost predicate Valid()
      reads this
    {
      NoDup(list) && forall f :: f in hash <==> f in list
    }

    constructor (n: int)
      ensures Valid() && list == [] && max == n
    {
      list, hash, max := [], {}, n;
    }

    /** Gives up the frame that was unpinned longest ago. */
    method Victim() returns (found: bool, f: int)
      requires Valid()
      modifies this
      ensures Valid() && (found <==> old(list) != [])
      ensures found ==> f == old(list)[|old(list)| - 1] && list == old(list)[..|old(list)| - 1]
      ensures !found ==> list == old(list)
    {
      if list == [] {
        return false, INVALID_PAGE_ID;
      }
      f := list[|list| - 1];
      assert list == list[..|list| - 1] + [f];
      hash := hash - {f};
      list := list[..|list| - 1];
      return true, f;
    }

    method Pin(f: int)
      requires Valid()
      modifies this
      ensures Valid() && list == Without(old(list), f)
    {
      WithoutIs(list, f);
      if f !in hash {
        WithoutNothing(list, f);
        return;
      }
      list := Without(list, f);
      hash := hash - {f};
    }

    /** A frame already listed stays where it is; a full list refuses. */
    method Unpin(f: int)
      requires Valid()
      modifies this
      ensures Valid()
      ensures list == if f in old(list) || |old(list)| >= max then old(list) else [f] + old(list)
    {
      if f in hash || |list| >= max {
        return;
      }
      list := [f] + list;
      hash := hash + {f};
    }
  }

  class BufferPoolManager {
    var frames: seq<Frame>
    var pageTable: map<PageId, int>
    var freeList: seq<int>
    var disk: map<PageId, Data>
    var nextPage: map<int, int>
    const replacer: LRUReplacer

    ghost function P(): Pool
      reads this, replacer
    {
      Pool(frames, pageTable, freeList, replacer.list, disk, nextPage)
    }

    ghost predicate ReplacerOk()
      reads this, replacer
    {
      replacer.Valid() && replacer.max == |frames|
    }

    ghost predicate Valid()
      reads this, replacer
    {
      ReplacerOk() && Ok(P())
    }

    constructor (poolSize: nat, disk: map<PageId, Data>, nextPage: map<int, int>)
      ensures Valid() && fresh(replacer) && |frames| == poolSize && this.disk == disk && this.nextPage == nextPage
      ensures Safe(P()) && (forall f :: !Stranded(P(), f)) && forall p :: Logical(P(), p) == OnDisk(disk, p)
    {
      frames := seq(poolSize, _ => Frame(PageId(-1, INVALID_PAGE_ID), ZEROS, false, 0));
      pageTable, this.disk, this.nextPage := map[], disk, nextPage;
      freeList := seq(poolSize, i => i);
      replacer := new LRUReplacer(poolSize);
      new;
      forall f | 0 <= f < |frames| ensures f in freeList {
        assert freeList[f] == f;
      }
    }

    /** A free frame first, then the least recently used one; fails exactly when both lists are empty. */
    method FindVictimPage() returns (found: bool, f: int)
      requires Valid()
      modifies this, replacer
      ensures ReplacerOk()
      ensures found <==> old(P()).free != [] || old(P()).lru != []
      ensures !found ==> P() == old(P())
      ensures found ==> f == Victim(old(P())) && P() == TakeVictim(old(P()))
    {
      if freeList != [] {
        f := freeList[0];
        freeList := freeList[1..];
        return true, f;
      }
      found, f := replacer.Victim();
    }

    method UpdatePage(f: int, id: PageId)
      requires 0 <= f < |frames|
      modifies this
      ensures P() == Replace(old(P()), f, id)
    {
      var page := frames[f];
      if page.InUse() {
        if page.dirty {
          disk := disk[page.id := page.data];
        }
        pageTable := pageTable - {page.id};
      }
      frames := frames[f := Frame(id, ZEROS, false, 0)];
      if id.no != INVALID_PAGE_ID {
        pageTable := pageTable[id := f];
      }
    }

    /** The page comes pinned once more and with the contents it has.  Without a frame to be had nothing changes; when
        the disk cannot read the page, the frame found for it is stranded. */
    method FetchPage(id: PageId) returns (r: FetchAnswer)
      requires Valid()
      modifies this, replacer
      ensures Valid() && P() == Next(old(P()), Fetch(id)) && FetchDone(old(P()), P(), id, r)
    {
      FetchOk(P(), id);
      if id in pageTable {
        var f := pageTable[id];
        frames := frames[f := frames[f].(pin := frames[f].pin + 1)];
        replacer.Pin(f);
        return Fetched(f);
      }
      r := ReadIn(id);
    }

    /** A frame is found for the page, whatever it held goes back to disk, and the page is read. */
    method ReadIn(id: PageId) returns (r: FetchAnswer)
      requires Valid() && id !in pageTable
      modifies this, replacer
      ensures ReplacerOk() && P() == FetchNext(old(P()), id) && r == FetchResult(old(P()), id)
    {
      var found, f := FindVictimPage();
      if !found {
        return NoFrame;
      }
      VictimIsFrame(old(P()));
      UpdatePage(f, id);
      var page := ReadPage(disk, id);
      if page.Missing? {
        return ReadFailed;
      }
      Occupy(f, page.data);
      return Fetched(f);
    }

    method Occupy(f: int, data: Data)
      requires replacer.Valid() && 0 <= f < |frames| && f !in replacer.list
      modifies this, replacer
      ensures replacer.Valid()
      ensures P() == old(P()).(frames := old(frames)[f := old(frames)[f].(data := data, pin := 1)])
    {
      WithoutNothing(replacer.list, f);
      frames := frames[f := frames[f].(data := data, pin := 1)];
      replacer.Pin(f);
    }

    /** Refuses a page that is not resident or not pinned; otherwise nobody's contents change, and the page is at
        risk afterwards exactly if its last pin went and nothing covers what its frame holds. */
    method UnpinPage(id: PageId, dirty: bool) returns (ok: bool)
      requires Valid()
      modifies this, replacer
      ensures Valid() && StrandsNone(old(P()), P()) && (NothingBeyond(old(P())) ==> NothingBeyond(P()))
      ensures ok <==> id in old(pageTable) && old(frames)[old(pageTable)[id]].pin > 0
      ensures P() == Next(old(P()), Unpin(id, dirty))
      ensures ok ==>
        && pageTable == old(pageTable) && frames[pageTable[id]].pin == old(frames)[pageTable[id]].pin - 1
        && frames[pageTable[id]].dirty == (dirty || old(frames)[pageTable[id]].dirty)
        && (frames[pageTable[id]].pin == 0 ==> replacer.list == [pageTable[id]] + old(replacer.list))
      ensures forall p :: Logical(P(), p) == Logical(old(P()), p)
      ensures ok ==>
        (AtRisk(P(), id) <==> old(frames)[old(pageTable)[id]].pin == 1 && Exposed(old(P()), id) && !dirty)
      ensures forall p :: p != id ==> (AtRisk(P(), p) <==> AtRisk(old(P()), p))
    {
      if id !in pageTable {
        return false;
      }
      var f := pageTable[id];
      if frames[f].pin <= 0 {
        return false;
      }
      UnpinnedOk(P(), f, dirty);
      LruHasRoom(P(), f);
      frames := frames[f := frames[f].(pin := frames[f].pin - 1, dirty := frames[f].dirty || dirty)];
      if frames[f].pin == 0 {
        replacer.Unpin(f);
      }
      return true;
    }

    method FlushPage(id: PageId) returns (ok: bool)
      requires Valid()
      modifies this
      ensures Valid() && SameContents(old(P()), P()) && Keeps(old(P()), P())
      ensures StrandsNone(old(P()), P()) && (NothingBeyond(old(P())) ==> NothingBeyond(P()))
      ensures ok <==> id in old(pageTable)
      ensures P() == Next(old(P()), Flush(id))
      ensures ok ==> disk == old(disk)[id := old(frames)[old(pageTable)[id]].data]
      ensures ok ==> Saved(P(), id)
    {
      if id !in pageTable {
        return false;
      }
      var f := pageTable[id];
      FlushedOk(P(), f);
      FlushedIsSaved(P(), f, id);
      WriteBack(f);
      return true;
    }

    method WriteBack(f: int)
      requires 0 <= f < |frames|
      modifies this
      ensures P() == Flushed(old(P()), f)
    {
      disk := disk[frames[f].id := frames[f].data];
      frames := frames[f := frames[f].(dirty := false)];
    }

    /** The next number of the file, in a frame of zeros pinned once; fails exactly when both lists are empty, and
        then hands out no number.  The number is new as long as only numbers handed out have been used. */
    method NewPage(fd: int) returns (f: int, id: PageId)
      requires Valid() && fd in nextPage
      modifies this, replacer
      ensures ReplacerOk() && (f == INVALID_PAGE_ID <==> NoVictims(old(P())))
      ensures P() == Next(old(P()), New(fd))
      ensures f != INVALID_PAGE_ID ==>
        && id == NewId(old(P()), fd) && f == Victim(old(P())) && NewDone(old(P()), P(), fd)
        && 0 <= f < |frames| && frames[f] == Frame(id, ZEROS, false, 1)
        && (id.no != INVALID_PAGE_ID ==> id in pageTable && pageTable[id] == f)
    {
      if !NoVictims(P()) {
        NewInto(P(), fd);
      }
      f, id := HandOut(fd);
    }

    method HandOut(fd: int) returns (f: int, id: PageId)
      requires Valid() && fd in nextPage
      modifies this, replacer
      ensures ReplacerOk() && P() == NewNext(old(P()), fd) && (f == INVALID_PAGE_ID <==> NoVictims(old(P())))
      ensures f != INVALID_PAGE_ID ==> id == NewId(old(P()), fd) && f == Victim(old(P())) && 0 <= f < |frames|
    {
      id := PageId(fd, INVALID_PAGE_ID);
      var found;
      found, f := FindVictimPage();
      if !found {
        return INVALID_PAGE_ID, id;
      }
      VictimIsFrame(old(P()));
      id := PageId(fd, nextPage[fd]);
      nextPage := nextPage[fd := nextPage[fd] + 1];
      UpdatePage(f, id);
      Occupy(f, ZEROS);
    }

    /** Only an unpinned page is dropped, and unless it was at risk what it held is on disk afterwards. */
    method DeletePage(id: PageId) returns (ok: bool)
      requires Valid()
      modifies this, replacer
      ensures Valid() && Keeps(old(P()), P())
      ensures StrandsNone(old(P()), P()) && (NothingBeyond(old(P())) ==> NothingBeyond(P()))
      ensures ok <==> id !in old(pageTable) || old(frames)[old(pageTable)[id]].pin == 0
      ensures ok ==> id !in pageTable
      ensures P() == Next(old(P()), Delete(id))
      ensures ok && id in old(pageTable) ==> freeList == old(freeList) + [old(pageTable)[id]]
    {
      if id !in pageTable {
        return true;
      }
      var f := pageTable[id];
      if frames[f].pin != 0 {
        return false;
      }
      DropFrame(f);
      return true;
    }

    method DropFrame(f: int)
      requires Valid() && 0 <= f < |frames| && frames[f].InUse() && frames[f].pin == 0
      modifies this, replacer
      ensures Valid() && Keeps(old(P()), P()) && StrandsNone(old(P()), P())
      ensures P() == Dropped(old(P()), f) && (NothingBeyond(old(P())) ==> NothingBeyond(P()))
    {
      DroppedOk(P(), f);
      if NothingBeyond(P()) {
        ReplaceKeepsBeyond(P(), f, PageId(frames[f].id.fd, INVALID_PAGE_ID));
      }
      replacer.Pin(f);
      UpdatePage(f, PageId(frames[f].id.fd, INVALID_PAGE_ID));
      freeList := freeList + [f];
    }

    /** The resident pages of a file. */
    method PagesOf(fd: int) returns (ids: set<PageId>)
      ensures ids == set p | p in pageTable && p.fd == fd
    {
      ids := set p | p in pageTable && p.fd == fd;
    }

    /** Refuses, changing nothing, while a page of the file is pinned; otherwise deletes them all, in some order. */
    method DeleteAllPages(fd: int) returns (ok: bool)
      requires Valid()
      modifies this, replacer
      ensures Valid() && Keeps(old(P()), P()) && (NothingBeyond(old(P())) ==> NothingBeyond(P()))
      ensures StrandsNone(old(P()), P()) && (ok ==> exists order :: P() == After(old(P()), Deletes(order)))
      ensures ok <==> forall p :: p in old(pageTable) && p.fd == fd ==> old(frames)[old(pageTable)[p]].pin == 0
      ensures !ok ==> P() == old(P())
      ensures ok ==> forall p :: p in pageTable <==> p in old(pageTable) && p.fd != fd
    {
      var ids := PagesOf(fd);
      ok := AllUnpinned(ids);
      if !ok {
        return;
      }
      ghost var s, order := P(), [];
      while ids != {}
        invariant Valid() && Keeps(s, P()) && StrandsNone(s, P()) && (NothingBeyond(s) ==> NothingBeyond(P()))
        invariant P() == After(s, Deletes(order))
        invariant forall p :: p in pageTable <==> p in s.table && (p.fd != fd || p in ids)
        invariant forall p :: p in ids ==> p.fd == fd && p in pageTable && frames[pageTable[p]].pin == 0
        decreases ids
      {
        var p :| p in ids;
        ghost var before := P();
        DropPage(p, ids);
        KeepsJoin(s, before, P());
        OneMore(order, p);
        AfterSnoc(s, Deletes(order), Delete(p));
        order := order + [p];
        ids := ids - {p};
      }
    }

    method DropPage(p: PageId, ghost ids: set<PageId>)
      requires Valid() && p in ids && forall q :: q in ids ==> q in pageTable && frames[pageTable[q]].pin == 0
      modifies this, replacer
      ensures Valid() && Keeps(old(P()), P()) && (NothingBeyond(old(P())) ==> NothingBeyond(P()))
      ensures StrandsNone(old(P()), P()) && P() == Next(old(P()), Delete(p))
      ensures pageTable == old(pageTable) - {p}
      ensures forall q :: q in ids && q != p ==> frames[pageTable[q]].pin == 0
    {
      DropFrame(pageTable[p]);
    }

    method AllUnpinned(ids: set<PageId>) returns (ok: bool)
      requires Valid() && forall p :: p in ids ==> p in pageTable
      ensures ok <==> forall p :: p in ids ==> frames[pageTable[p]].pin == 0
    {
      var todo := ids;
      while todo != {}
        invariant todo <= ids
        invariant forall p :: p in ids && p !in todo ==> frames[pageTable[p]].pin == 0
        decreases todo
      {
        var p :| p in todo;
        if frames[pageTable[p]].pin != 0 {
          return false;
        }
        todo := todo - {p};
      }
      return true;
    }

    /** Every resident page of the file is on disk as clients see it. */
    method FlushAllPages(fd: int)
      requires Valid()
      modifies this
      ensures Valid() && SameContents(old(P()), P()) && Keeps(old(P()), P())
      ensures pageTable == old(pageTable) && (NothingBeyond(old(P())) ==> NothingBeyond(P()))
      ensures StrandsNone(old(P()), P()) && exists order :: P() == After(old(P()), Flushes(order))
      ensures forall p :: p in pageTable && p.fd == fd ==> Saved(P(), p)
    {
      var ids := PagesOf(fd);
      ghost var s, order := P(), [];
      while ids != {}
        invariant Valid() && FlushedSoFar(s, P(), fd, ids) && P() == After(s, Flushes(order))
        decreases ids
      {
        var p :| p in ids;
        FlushStep(s, P(), fd, ids, p);
        WriteBack(pageTable[p]);
        OneMore(order, p);
        AfterSnoc(s, Flushes(order), Flush(p));
        order := order + [p];
        ids := ids - {p};
      }
    }

    /** A client stores into the frame of a page it has pinned: the only step that changes contents. */
    method WriteData(id: PageId, data: Data)
      requires Valid() && id in pageTable && frames[pageTable[id]].pin > 0
      modifies this
      ensures Valid() && StrandsNone(old(P()), P()) && (NothingBeyond(old(P())) ==> NothingBeyond(P()))
      ensures forall p :: Logical(P(), p) == if p == id then Bytes(data) else Logical(old(P()), p)
      ensures forall p :: AtRisk(P(), p) <==> AtRisk(old(P()), p)
      ensures P() == Next(old(P()), Write(id, data))
    {
      var f := pageTable[id];
      WrittenOk(P(), f, data);
      frames := frames[f := frames[f].(data := data)];
    }
  }

  /** The capacity test of the LRU list never drops a frame. */
  lemma LruHasRoom(s: Pool, f: int)
    requires ListsOk(s) && 0 <= f < |s.frames| && s.frames[f].pin > 0
    ensures f !in s.lru && |s.lru| < |s.frames|
  {
    assert Placed(s, f);
    MissesOne(s.lru, |s.frames|, f);
  }
}
