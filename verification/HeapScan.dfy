/** Scanning a heap file, and redoing or undoing records in it. */
module HeapScan {
  import opened Rids
  import opened Records
  import opened HeapState
  import opened HeapFile
  import R = Recovery

  // ---------- positions ----------

  predicate Before(a: Rid, b: Rid)
  {
    a.page < b.page || (a.page == b.page && a.slot < b.slot)
  }

  /** No record lies strictly between two positions. */
  ghost predicate NoneBetween(h: Heap, a: Rid, b: Rid)
  {
    forall r :: IsRecord(h, r) && Before(a, r) ==> !Before(r, b)
  }

  class RmScan {
    const fh: RmFileHandle
    var rid: Rid

    ghost predicate Valid()
      reads this, fh
    {
      && fh.Valid()
      && (IsRecord(fh.H(), rid) || rid == Rid(|fh.pages|, -1))
    }

    predicate IsEnd()
      reads this, fh
    {
      rid.page >= |fh.pages|
    }

    /** Starts at the first record. */
    constructor (fh: RmFileHandle)
      requires fh.Valid()
      ensures this.fh == fh && Valid() && NoneBetween(fh.H(), Rid(0, -1), rid)
    {
      this.fh := fh;
      rid := Rid(FIRST_RECORD_PAGE, -1);
      new;
      if |fh.pages| <= FIRST_RECORD_PAGE {
        rid := Rid(|fh.pages|, -1);
      } else {
        var next := FindNext(fh, FIRST_RECORD_PAGE, -1);
        rid := next;
      }
    }

    /** Moves to the next record, or past the last page. */
    method Next()
      requires Valid()
      modifies this
      ensures Valid()
      ensures old(IsEnd()) ==> rid == old(rid)
      ensures !old(IsEnd()) ==> Before(old(rid), rid) && NoneBetween(fh.H(), old(rid), rid)
    {
      if IsEnd() {
        return;
      }
      var next := FindNext(fh, rid.page, rid.slot);
      rid := next;
    }
  }

  /** The loop of the scan: the rest of this page, then page after page. */
  method FindNext(fh: RmFileHandle, startPage: int, startSlot: int) returns (rid: Rid)
    requires fh.Valid() && HasPage(fh.H(), startPage) && -1 <= startSlot < fh.perPage
    ensures IsRecord(fh.H(), rid) || rid == Rid(|fh.pages|, -1)
    ensures Before(Rid(startPage, startSlot), rid) && NoneBetween(fh.H(), Rid(startPage, startSlot), rid)
  {
    ghost var h := fh.H();
    var page, slot := startPage, startSlot;
    while page < |fh.pages|
      invariant startPage <= page <= |fh.pages| && -1 <= slot < fh.perPage
      invariant page == startPage ==> slot == startSlot
      invariant page > startPage ==> slot == -1
      invariant forall r :: IsRecord(h, r) && Before(Rid(startPage, startSlot), r) ==> !Before(r, Rid(page, slot + 1))
      decreases |fh.pages| - page
    {
      assert PageOk(h, page);
      var next := NextBit(true, fh.pages[page].bits, fh.perPage, slot);
      if next < fh.perPage {
        return Rid(page, next);
      }
      forall r | IsRecord(h, r) && Before(Rid(startPage, startSlot), r) ensures !Before(r, Rid(page + 1, 0)) {
        assert !Before(r, Rid(page, slot + 1));
        assert PageOk(h, r.page);
      }
      page, slot := page + 1, -1;
    }
    return Rid(|fh.pages|, -1);
  }

  ghost predicate Ascending(s: seq<Rid>)
  {
    forall i, j :: 0 <= i < j < |s| ==> Before(s[i], s[j])
  }

  /** A whole scan meets every record exactly once, in order, and ends. */
  method ScanAll(fh: RmFileHandle) returns (out: seq<Rid>)
    requires fh.Valid()
    ensures forall i, j :: 0 <= i < j < |out| ==>
      out[i].page < out[j].page || (out[i].page == out[j].page && out[i].slot < out[j].slot)
    ensures forall r :: r in out <==> At(fh.H(), r) != Absent
  {
    ghost var h := fh.H();
    out := [];
    var scan := new RmScan(fh);
    while !scan.IsEnd()
      invariant scan.fh == fh && scan.Valid() && fh.H() == h
      invariant Ascending(out) && forall r :: r in out ==> Before(r, scan.rid)
      invariant forall r :: r in out <==> IsRecord(h, r) && Before(r, scan.rid)
      decreases |h.pages| - scan.rid.page, h.per - scan.rid.slot
    {
      ghost var was := scan.rid;
      assert PageOk(h, was.page);
      out := out + [scan.rid];
      scan.Next();
      assert !scan.IsEnd() ==> PageOk(h, scan.rid.page);
    }
  }

  // ---------- recovery ----------

  method RecordExists(fh: RmFileHandle, rid: Rid) returns (b: bool)
    requires fh.Valid()
    ensures b <==> IsRecord(fh.H(), rid)
  {
    assert HasPage(fh.H(), rid.page) ==> PageOk(fh.H(), rid.page);
    if rid.page < FIRST_RECORD_PAGE || rid.page >= |fh.pages| || rid.slot < 0 || rid.slot >= fh.perPage {
      return false;
    }
    return fh.pages[rid.page].bits[rid.slot];
  }

  /** Grows the file until it has the page.  Each new page becomes the whole list, so pages with room that were
      on it are forgotten: the list stays complete exactly if nothing was added, or one page was added to a file
      whose pages were all full. */
  method EnsurePageExists(fh: RmFileHandle, page: int)
    requires fh.Valid() && page >= FIRST_RECORD_PAGE
    modifies fh
    ensures fh.Valid() && HasPage(fh.H(), page)
    ensures |fh.pages| == if page < old(|fh.pages|) then old(|fh.pages|) else page + 1
    ensures forall r :: At(fh.H(), r) == At(old(fh.H()), r)
    ensures page < old(|fh.pages|) ==> fh.H() == old(fh.H()) && fh.free == old(fh.free)
    ensures page >= old(|fh.pages|) ==> (Complete(fh.H(), fh.free) <==>
      page == old(|fh.pages|) && forall p :: HasPage(old(fh.H()), p) ==> !NonFull(old(fh.H()), p))
  {
    ghost var h := fh.H();
    ghost var n := |fh.pages|;
    while page >= |fh.pages|
      invariant fh.Valid() && n <= |fh.pages| <= (if page < n then n else page + 1)
      invariant forall r :: At(fh.H(), r) == At(h, r)
      invariant |fh.pages| == n ==> fh.H() == h && fh.free == old(fh.free)
      invariant |fh.pages| > n ==> fh.free == [|fh.pages| - 1]
      invariant |fh.pages| > n ==> (Complete(fh.H(), fh.free) <==> |fh.pages| == n + 1 && AllFull(h))
      decreases page - |fh.pages|
    {
      GrownOk(fh.H());
      ghost var last := |fh.pages| - 1;
      if last >= n {
        assert Listed(fh.H(), fh.free, 0);
      }
      fh.CreateNewPage();
    }
  }

  ghost predicate AllFull(h: Heap)
  {
    forall p :: HasPage(h, p) ==> !NonFull(h, p)
  }

  method PutRecordAt(fh: RmFileHandle, rid: Rid, rec: Rec)
    requires fh.Valid() && rid.page >= FIRST_RECORD_PAGE && 0 <= rid.slot < fh.perPage
    modifies fh
    ensures fh.Valid() && Changed(old(fh.H()), fh.H(), rid, Present(rec))
  {
    EnsurePageExists(fh, rid.page);
    var present := RecordExists(fh, rid);
    if present {
      var _ := fh.UpdateRecord(rid, rec);
    } else {
      var _ := fh.InsertRecordAt(rid, rec);
    }
  }

  method DeleteIfPresent(fh: RmFileHandle, rid: Rid)
    requires fh.Valid()
    modifies fh
    ensures fh.Valid() && Changed(old(fh.H()), fh.H(), rid, Absent)
  {
    var present := RecordExists(fh, rid);
    if present {
      assert PageOk(fh.H(), rid.page);
      var _ := fh.DeleteRecord(rid);
    }
  }

  /** The heap of a table holds the table's part of a store. */
  ghost predicate Holds(h: Heap, table: int, s: Store)
  {
    forall r :: At(h, r) == Get(s, Loc(table, r))
  }

  ghost predicate RidsFit(plan: seq<R.Change>, per: int)
  {
    forall i :: 0 <= i < |plan| ==> plan[i].loc.rid.page >= FIRST_RECORD_PAGE && 0 <= plan[i].loc.rid.slot < per
  }

  /** Applying a recovery plan to the heap of a table does to its records what the plan does to the store. */
  method RecoverTable(fh: RmFileHandle, table: int, ghost image: Store, plan: seq<R.Change>)
    requires fh.Valid() && RidsFit(plan, fh.perPage) && Holds(fh.H(), table, image)
    modifies fh
    ensures fh.Valid() && Holds(fh.H(), table, R.Apply(image, plan))
  {
    for i := 0 to |plan|
      invariant fh.Valid() && Holds(fh.H(), table, R.Apply(image, plan[..i]))
    {
      var c := plan[i];
      ghost var s := R.Apply(image, plan[..i]);
      assert plan[..i + 1][..i] == plan[..i];
      assert R.Apply(image, plan[..i + 1]) == Put(s, c.loc, c.image);
      PutGet(s, c.loc, c.image);
      if c.loc.table == table {
        assert c.loc == Loc(table, c.loc.rid);
        if c.image.Present? {
          PutRecordAt(fh, c.loc.rid, c.image.rec);
        } else {
          DeleteIfPresent(fh, c.loc.rid);
        }
      }
    }
    assert plan[..|plan|] == plan;
  }
}
