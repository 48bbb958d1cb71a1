/** The heap file handle, the heap scan, and the record placement recovery uses. */
module HeapFile {
  import opened Rids
  import opened Records
  import opened HeapState

  datatype Status = Ok | PageNotExist | RecordNotFound

  /** The first position after `curr` with this bit, or `max`. */
  method NextBit(bit: bool, bits: seq<bool>, max: int, curr: int) returns (i: int)
    requires -1 <= curr < max == |bits| || (curr == -1 && max == |bits| == 0)
    ensures curr < i <= max
    ensures i < max ==> bits[i] == bit
    ensures forall j :: curr < j < i ==> bits[j] != bit
  {
    i := curr + 1;
    while i < max
      invariant curr < i <= max
      invariant forall j :: curr < j < i ==> bits[j] != bit
    {
      if bits[i] == bit {
        return;
      }
      i := i + 1;
    }
  }

  class RmFileHandle {
    var pages: seq<Page>
    var firstFree: int
    const perPage: int
    /** The pages the links lead through. */
    ghost var free: seq<int>

    ghost function H(): Heap
      reads this
    {
      Heap(pages, firstFree, perPage)
    }

    ghost predicate Valid()
      reads this
    {
      HeapOk(H(), free)
    }

    /** A file as created: the header page alone. */
    constructor (perPage: int)
      requires perPage >= 1
      ensures Valid() && Complete(H(), free) && this.perPage == perPage && forall r :: At(H(), r) == Absent
    {
      pages := [Page(NO_PAGE, 0, [], [])];
      firstFree := NO_PAGE;
      this.perPage := perPage;
      free := [];
    }

    method CreateNewPage()
      requires Valid()
      modifies this
      ensures Valid() && H() == Grown(old(H())) && free == [|old(pages)|]
    {
      GrownOk(H());
      firstFree := |pages|;
      free := [|pages|];
      pages := pages + [Page(NO_PAGE, 0, seq(perPage, _ => false), seq(perPage, _ => []))];
    }

    method WriteSlot(rid: Rid, rec: Rec)
      requires IsSlot(H(), rid) && rid.slot < |pages[rid.page].slots|
      modifies this`pages
      ensures H() == SetSlot(old(H()), rid, rec)
    {
      var pg := pages[rid.page];
      var count := pg.count;
      if !pg.bits[rid.slot] {
        count := count + 1;
      }
      pages := pages[rid.page := pg.(count := count, bits := pg.bits[rid.slot := true],
                                     slots := pg.slots[rid.slot := rec])];
    }

    /** Any page with room will do: the first of the list, or a new one when the list is empty. */
    method InsertRecord(rec: Rec) returns (rid: Rid)
      requires Valid()
      modifies this
      ensures Valid() && At(old(H()), rid) == Absent && Changed(old(H()), H(), rid, Present(rec))
      ensures rid.page == if old(free) != [] then old(free)[0] else |old(pages)|
      ensures rid.slot >= 0 && forall k :: 0 <= k < rid.slot ==> At(old(H()), Rid(rid.page, k)) != Absent
      ensures old(Complete(H(), free)) ==> Complete(H(), free)
    {
      NewPageIfNone();
      ghost var h := H();
      var p := firstFree;
      assert Listed(h, free, 0);
      RoomMeansSlot(h, p);
      assert PageOk(h, p);
      var slot := NextBit(false, pages[p].bits, perPage, -1);
      rid := Rid(p, slot);
      SetSlotOk(h, rid, rec);
      SetSlotList(h, free, rid, rec, 0);
      WriteSlot(rid, rec);
      if pages[p].count == perPage {
        DropFirst();
      }
    }

    method NewPageIfNone()
      requires Valid()
      modifies this
      ensures Valid() && free != [] && forall r :: At(H(), r) == At(old(H()), r)
      ensures free[0] == if old(free) != [] then old(free)[0] else |old(pages)|
      ensures old(Complete(H(), free)) ==> Complete(H(), free)
    {
      assert free != [] ==> Listed(H(), free, 0);
      if firstFree == NO_PAGE {
        GrownOk(H());
        CreateNewPage();
      }
    }

    /** The first page has filled up: the header moves on. */
    method DropFirst()
      requires PagesOk(H()) && free != [] && ListedBut(H(), free, 0)
      requires HasPage(H(), free[0]) && !NonFull(H(), free[0])
      modifies this
      ensures Valid() && (forall r :: At(H(), r) == At(old(H()), r)) && |pages| == |old(pages)|
      ensures old(Complete(H(), free)) ==> Complete(H(), free)
    {
      UnlinkOk(H(), free, 0);
      UnlinkKeeps(H(), free, 0);
      var p := firstFree;
      firstFree := pages[p].next;
      pages := pages[p := pages[p].(next := NO_PAGE)];
      free := free[..0] + free[1..];
    }

    /** Stores a record at a given place, whatever was there. */
    method InsertRecordAt(rid: Rid, rec: Rec) returns (r: Status)
      requires Valid() && 0 <= rid.slot < perPage
      modifies this
      ensures Valid()
      ensures r == if HasPage(old(H()), rid.page) then Ok else PageNotExist
      ensures r == PageNotExist ==> H() == old(H()) && free == old(free)
      ensures r == Ok ==> Changed(old(H()), H(), rid, Present(rec)) && |pages| == |old(pages)|
      ensures old(Complete(H(), free)) ==> Complete(H(), free)
    {
      if !(FIRST_RECORD_PAGE <= rid.page < |pages|) {
        return PageNotExist;
      }
      ghost var h := H();
      assert PageOk(h, rid.page);
      ghost var k := if rid.page in free then IndexOf(free, rid.page) else -1;
      SetSlotOk(h, rid, rec);
      SetSlotList(h, free, rid, rec, k);
      WriteSlot(rid, rec);
      if pages[rid.page].count == perPage {
        UnlinkFull(rid.page, k);
      }
      return Ok;
    }

    /** Takes a full page out of the list if it is there: the header or the page before it skips it. */
    method UnlinkFull(p: int, ghost k: int)
      requires PagesOk(H()) && HasPage(H(), p) && !NonFull(H(), p)
      requires ListedBut(H(), free, k) && (p in free ==> 0 <= k < |free| && free[k] == p)
      requires p !in free ==> ListOk(H(), free)
      modifies this
      ensures Valid() && (forall r :: At(H(), r) == At(old(H()), r)) && |pages| == |old(pages)|
      ensures old(Complete(H(), free)) ==> Complete(H(), free)
    {
      if firstFree == p {
        assert free != [] && free[0] == p;
        DropFirst();
        return;
      }
      var prev := firstFree;
      ghost var i := 0;
      while prev != NO_PAGE
        invariant 0 <= i <= |free| && prev == Link(free, i)
        invariant p !in free[..i] && (i < |free| ==> free[i] != p)
        invariant H() == old(H()) && free == old(free)
        decreases |free| - i
      {
        assert i < |free| ==> LinkedBut(H(), free, i, k);
        if pages[prev].next == p {
          SkipPage(prev, p, i + 1);
          return;
        }
        prev := pages[prev].next;
        i := i + 1;
        assert free[..i] == free[..i - 1] + [free[i - 1]];
      }
      WalkedAll(H(), free, i, k);
      assert free[..|free|] == free;
    }

    method SkipPage(prev: int, p: int, ghost k: int)
      requires PagesOk(H()) && 0 < k < |free| && free[k] == p && free[k - 1] == prev
      requires ListedBut(H(), free, k) && HasPage(H(), p) && !NonFull(H(), p)
      modifies this
      ensures Valid() && (forall r :: At(H(), r) == At(old(H()), r)) && |pages| == |old(pages)|
      ensures old(Complete(H(), free)) ==> Complete(H(), free)
    {
      UnlinkOk(H(), free, k);
      UnlinkKeeps(H(), free, k);
      pages := pages[prev := pages[prev].(next := pages[p].next)];
      pages := pages[p := pages[p].(next := NO_PAGE)];
      free := free[..k] + free[k + 1..];
    }

    method DeleteRecord(rid: Rid) returns (r: Status)
      requires Valid() && 0 <= rid.slot < perPage
      modifies this
      ensures Valid()
      ensures r == if !HasPage(old(H()), rid.page) then PageNotExist
                   else if IsRecord(old(H()), rid) then Ok else RecordNotFound
      ensures r != Ok ==> H() == old(H()) && free == old(free)
      ensures r == Ok ==> Changed(old(H()), H(), rid, Absent) && |pages| == |old(pages)|
      ensures r == Ok ==> free == if NonFull(old(H()), rid.page) then old(free) else [rid.page] + old(free)
      ensures old(Complete(H(), free)) ==> Complete(H(), free)
    {
      if !(FIRST_RECORD_PAGE <= rid.page < |pages|) {
        return PageNotExist;
      }
      assert PageOk(H(), rid.page);
      var pg := pages[rid.page];
      if !pg.bits[rid.slot] {
        return RecordNotFound;
      }
      ghost var h := H();
      ClearSlotOk(h, rid);
      var wasFull := pg.count == perPage;
      pages := pages[rid.page := pg.(count := pg.count - 1, bits := pg.bits[rid.slot := false],
                                     slots := pg.slots[rid.slot := []])];
      if wasFull {
        ReleaseOk(h, free, rid);
        Release(rid.page);
      } else {
        ClearSlotList(h, free, rid);
      }
      return Ok;
    }

    /** Puts a page that has room again at the front of the list. */
    method Release(p: int)
      requires HasPage(H(), p)
      modifies this
      ensures H() == Relink(old(H()), p, old(firstFree)).(first := p) && free == [p] + old(free)
    {
      pages := pages[p := pages[p].(next := firstFree)];
      firstFree := p;
      free := [p] + free;
    }

    method UpdateRecord(rid: Rid, rec: Rec) returns (r: Status)
      requires Valid() && 0 <= rid.slot < perPage
      modifies this
      ensures Valid()
      ensures r == if !HasPage(old(H()), rid.page) then PageNotExist
                   else if IsRecord(old(H()), rid) then Ok else RecordNotFound
      ensures r != Ok ==> H() == old(H())
      ensures r == Ok ==> Changed(old(H()), H(), rid, Present(rec)) && |pages| == |old(pages)|
      ensures free == old(free) && (old(Complete(H(), free)) ==> Complete(H(), free))
    {
      if !(FIRST_RECORD_PAGE <= rid.page < |pages|) {
        return PageNotExist;
      }
      assert PageOk(H(), rid.page);
      if !pages[rid.page].bits[rid.slot] {
        return RecordNotFound;
      }
      SetSlotOk(H(), rid, rec);
      UpdateList(H(), free, rid, rec);
      pages := pages[rid.page := pages[rid.page].(slots := pages[rid.page].slots[rid.slot := rec])];
      assert pages[rid.page].bits == old(pages)[rid.page].bits[rid.slot := true];
      return Ok;
    }

    method GetRecord(rid: Rid) returns (r: Status, rec: Rec)
      requires Valid() && 0 <= rid.slot < perPage
      ensures r == if !HasPage(H(), rid.page) then PageNotExist else if IsRecord(H(), rid) then Ok else RecordNotFound
      ensures r == Ok ==> At(H(), rid) == Present(rec)
    {
      if !(FIRST_RECORD_PAGE <= rid.page < |pages|) {
        return PageNotExist, [];
      }
      assert PageOk(H(), rid.page);
      if !pages[rid.page].bits[rid.slot] {
        return RecordNotFound, [];
      }
      return Ok, pages[rid.page].slots[rid.slot];
    }
  }

  /** The link that leads nowhere is behind the last element. */
  lemma WalkedAll(h: Heap, free: seq<int>, i: nat, k: int)
    requires ListedBut(h, free, k) && i <= |free| && Link(free, i) == NO_PAGE
    ensures i == |free|
  {
    if i < |free| {
      ElementIsPage(h, free, i, k);
    }
  }

  lemma ElementIsPage(h: Heap, free: seq<int>, i: nat, k: int)
    requires ListedBut(h, free, k) && i < |free|
    ensures HasPage(h, free[i])
  {
    assert LinkedBut(h, free, i, k);
  }

  function IndexOf(s: seq<int>, x: int): (i: int)
    requires x in s
    ensures 0 <= i < |s| && s[i] == x
  {
    if s[0] == x then 0 else 1 + IndexOf(s[1..], x)
  }

  lemma UpdateList(h: Heap, free: seq<int>, rid: Rid, rec: Rec)
    requires PagesOk(h) && ListOk(h, free) && IsRecord(h, rid) && rid.slot < |h.pages[rid.page].slots|
    ensures var h' := SetSlot(h, rid, rec); ListOk(h', free) && (Complete(h, free) ==> Complete(h', free))
  {
    var h' := SetSlot(h, rid, rec);
    forall i | 0 <= i < |free| ensures Listed(h', free, i) {
      assert Listed(h, free, i);
    }
  }
}
