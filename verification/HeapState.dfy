/** A table's heap file as a value: slotted pages and the list of pages with room. */
module HeapState {
  import opened Rids
  import opened Records
  import Q = Sequences

  const NO_PAGE := -1
  const FIRST_RECORD_PAGE := 1

  /** `next` links pages with room; `count` is the stored number of records. */
  datatype Page = Page(next: int, count: int, bits: seq<bool>, slots: seq<Rec>)

  /** Page 0 is the file header; the page number is the position. */
  datatype Heap = Heap(pages: seq<Page>, first: int, per: int)

  predicate HasPage(h: Heap, p: int)
  {
    FIRST_RECORD_PAGE <= p < |h.pages|
  }

  function CountBits(bits: seq<bool>): nat
  {
    if bits == [] then 0 else CountBits(bits[..|bits| - 1]) + if bits[|bits| - 1] then 1 else 0
  }

  ghost predicate PageOk(h: Heap, p: int)
    requires HasPage(h, p)
  {
    |h.pages[p].bits| == |h.pages[p].slots| == h.per && h.pages[p].count == CountBits(h.pages[p].bits)
  }

  predicate NonFull(h: Heap, p: int)
    requires HasPage(h, p)
  {
    h.pages[p].count != h.per
  }

  ghost predicate PagesOk(h: Heap)
  {
    h.per >= 1 && |h.pages| >= 1 && forall p :: HasPage(h, p) ==> PageOk(h, p)
  }

  // ---------- the list of pages with room ----------

  function Link(free: seq<int>, i: int): int
    requires 0 <= i <= |free|
  {
    if i < |free| then free[i] else NO_PAGE
  }

  /** Element `i` is a page with room whose link leads to the next element. */
  ghost predicate Listed(h: Heap, free: seq<int>, i: int)
    requires 0 <= i < |free|
  {
    HasPage(h, free[i]) && NonFull(h, free[i]) && h.pages[free[i]].next == Link(free, i + 1)
  }

  /** The links from the header spell `free`, without repetition, over pages with room. */
  ghost predicate ListOk(h: Heap, free: seq<int>)
  {
    && h.first == Link(free, 0)
    && (forall i :: 0 <= i < |free| ==> Listed(h, free, i))
    && (forall i, j :: 0 <= i < j < |free| ==> free[i] != free[j])
  }

  ghost predicate HeapOk(h: Heap, free: seq<int>)
  {
    PagesOk(h) && ListOk(h, free)
  }

  /** The list misses no page with room. */
  ghost predicate Complete(h: Heap, free: seq<int>)
  {
    forall p :: HasPage(h, p) && NonFull(h, p) ==> p in free
  }

  // ---------- records ----------

  predicate IsSlot(h: Heap, rid: Rid)
  {
    HasPage(h, rid.page) && 0 <= rid.slot < |h.pages[rid.page].bits|
  }

  predicate IsRecord(h: Heap, rid: Rid)
  {
    IsSlot(h, rid) && h.pages[rid.page].bits[rid.slot]
  }

  ghost function At(h: Heap, rid: Rid): Image
  {
    if IsRecord(h, rid) && rid.slot < |h.pages[rid.page].slots| then Present(h.pages[rid.page].slots[rid.slot])
    else Absent
  }

  /** A record is where a page of the file has its slot's bit set. */
  lemma AtMeans(h: Heap, rid: Rid)
    requires PagesOk(h)
    ensures At(h, rid) != Absent <==>
      1 <= rid.page < |h.pages| && 0 <= rid.slot < h.per && |h.pages[rid.page].bits| == h.per
      && h.pages[rid.page].bits[rid.slot]
    ensures At(h, rid) != Absent ==>
      |h.pages[rid.page].slots| == h.per && At(h, rid) == Present(h.pages[rid.page].slots[rid.slot])
  {
    assert HasPage(h, rid.page) ==> PageOk(h, rid.page);
  }

  /** The records are those of `h` except at one place. */
  ghost predicate Changed(h: Heap, h': Heap, rid: Rid, v: Image)
  {
    forall r :: At(h', r) == if r == rid then v else At(h, r)
  }

  // ---------- bits ----------

  lemma {:induction false} CountUpdate(bits: seq<bool>, i: nat, b: bool)
    requires i < |bits|
    ensures CountBits(bits[i := b]) == CountBits(bits) + (if b then 1 else 0) - (if bits[i] then 1 else 0)
  {
    var n := |bits| - 1;
    if i == n {
      assert bits[i := b][..n] == bits[..n];
    } else {
      assert bits[i := b][..n] == bits[..n][i := b];
      CountUpdate(bits[..n], i, b);
    }
  }

  lemma {:induction false} CountRange(bits: seq<bool>)
    ensures CountBits(bits) <= |bits|
    ensures CountBits(bits) == |bits| <==> forall i :: 0 <= i < |bits| ==> bits[i]
  {
    if bits != [] {
      var n := |bits| - 1;
      CountRange(bits[..n]);
      assert forall i :: 0 <= i < n ==> bits[..n][i] == bits[i];
    }
  }

  lemma {:induction false} CountClear(n: nat)
    ensures CountBits(seq(n, _ => false)) == 0
  {
    if n > 0 {
      assert seq(n, _ => false)[..n - 1] == seq(n - 1, _ => false);
      CountClear(n - 1);
    }
  }

  // ---------- writing a slot ----------

  function SetSlot(h: Heap, rid: Rid, rec: Rec): Heap
    requires IsSlot(h, rid) && rid.slot < |h.pages[rid.page].slots|
  {
    var pg := h.pages[rid.page];
    var more := if pg.bits[rid.slot] then pg.count else pg.count + 1;
    h.(pages := h.pages[rid.page := pg.(count := more, bits := pg.bits[rid.slot := true],
                                        slots := pg.slots[rid.slot := rec])])
  }

  /** A deleted slot is wiped. */
  function ClearSlot(h: Heap, rid: Rid): Heap
    requires IsRecord(h, rid) && rid.slot < |h.pages[rid.page].slots|
  {
    var pg := h.pages[rid.page];
    h.(pages := h.pages[rid.page := pg.(count := pg.count - 1, bits := pg.bits[rid.slot := false],
                                        slots := pg.slots[rid.slot := []])])
  }

  function Relink(h: Heap, p: int, next: int): Heap
    requires HasPage(h, p)
  {
    h.(pages := h.pages[p := h.pages[p].(next := next)])
  }

  lemma SetSlotOk(h: Heap, rid: Rid, rec: Rec)
    requires PagesOk(h) && IsSlot(h, rid)
    ensures PageOk(h, rid.page)
    ensures var h' := SetSlot(h, rid, rec);
      PagesOk(h') && Changed(h, h', rid, Present(rec))
  {
    assert PageOk(h, rid.page);
    var h' := SetSlot(h, rid, rec);
    CountUpdate(h.pages[rid.page].bits, rid.slot, true);
    forall p | HasPage(h', p) ensures PageOk(h', p) {
      assert PageOk(h, p);
    }
  }

  lemma ClearSlotOk(h: Heap, rid: Rid)
    requires PagesOk(h) && IsRecord(h, rid)
    ensures PageOk(h, rid.page)
    ensures var h' := ClearSlot(h, rid);
      PagesOk(h') && Changed(h, h', rid, Absent) && NonFull(h', rid.page)
  {
    assert PageOk(h, rid.page);
    var h' := ClearSlot(h, rid);
    CountUpdate(h.pages[rid.page].bits, rid.slot, false);
    CountRange(h.pages[rid.page].bits);
    forall p | HasPage(h', p) ensures PageOk(h', p) {
      assert PageOk(h, p);
    }
  }

  lemma RelinkOk(h: Heap, p: int, next: int)
    requires PagesOk(h) && HasPage(h, p)
    ensures PagesOk(Relink(h, p, next)) && forall r :: At(Relink(h, p, next), r) == At(h, r)
  {
    var h' := Relink(h, p, next);
    forall q | HasPage(h', q) ensures PageOk(h', q) {
      assert PageOk(h, q);
    }
  }

  /** A page with room has a free slot. */
  lemma RoomMeansSlot(h: Heap, p: int)
    requires PagesOk(h) && HasPage(h, p) && NonFull(h, p)
    ensures exists i :: 0 <= i < h.per && !h.pages[p].bits[i]
  {
    assert PageOk(h, p);
    CountRange(h.pages[p].bits);
  }

  // ---------- the list under these steps ----------

  /** Every element is listed, except that the page at `k` may have filled up. */
  ghost predicate ListedBut(h: Heap, free: seq<int>, k: int)
  {
    && h.first == Link(free, 0)
    && (forall i :: 0 <= i < |free| ==> LinkedBut(h, free, i, k))
    && (forall i, j :: 0 <= i < j < |free| ==> free[i] != free[j])
  }

  ghost predicate LinkedBut(h: Heap, free: seq<int>, i: int, k: int)
    requires 0 <= i < |free|
  {
    HasPage(h, free[i]) && h.pages[free[i]].next == Link(free, i + 1) && (i != k ==> NonFull(h, free[i]))
  }

  lemma SetSlotList(h: Heap, free: seq<int>, rid: Rid, rec: Rec, k: int)
    requires PagesOk(h) && ListOk(h, free) && IsSlot(h, rid) && rid.slot < |h.pages[rid.page].slots|
    requires forall i :: 0 <= i < |free| && free[i] == rid.page ==> i == k
    ensures var h' := SetSlot(h, rid, rec);
      && ListedBut(h', free, k)
      && (NonFull(h', rid.page) || rid.page !in free ==> ListOk(h', free))
      && (Complete(h, free) ==> Complete(h', free))
  {
    var h' := SetSlot(h, rid, rec);
    assert PageOk(h, rid.page);
    CountUpdate(h.pages[rid.page].bits, rid.slot, true);
    CountRange(h'.pages[rid.page].bits);
    forall i | 0 <= i < |free|
      ensures LinkedBut(h', free, i, k)
      ensures NonFull(h', rid.page) || rid.page !in free ==> Listed(h', free, i)
    {
      assert Listed(h, free, i);
    }
  }

  /** Taking the full page at `k` out of the list: its predecessor, or the header, skips it. */
  function Unlink(h: Heap, free: seq<int>, k: int): Heap
    requires 0 <= k < |free| && HasPage(h, free[k]) && (k > 0 ==> HasPage(h, free[k - 1]))
  {
    var p := free[k];
    var skip := if k == 0 then h.(first := h.pages[p].next) else Relink(h, free[k - 1], h.pages[p].next);
    Relink(skip, p, NO_PAGE)
  }

  lemma UnlinkOk(h: Heap, free: seq<int>, k: int)
    requires ListedBut(h, free, k) && 0 <= k < |free|
    ensures LinkedBut(h, free, k, k) && (k > 0 ==> LinkedBut(h, free, k - 1, k))
    ensures ListOk(Unlink(h, free, k), free[..k] + free[k + 1..])
  {
    assert LinkedBut(h, free, k, k) && (k > 0 ==> LinkedBut(h, free, k - 1, k));
    var h', free' := Unlink(h, free, k), free[..k] + free[k + 1..];
    forall i | 0 <= i < |free'| ensures Listed(h', free', i) {
      var j := if i < k then i else i + 1;
      assert LinkedBut(h, free, j, k);
      assert free'[i] == free[j] && free[j] != free[k];
      assert k > 0 && j != k - 1 ==> free[j] != free[k - 1];
    }
    forall i, j | 0 <= i < j < |free'| ensures free'[i] != free'[j] {
      var a, b := if i < k then i else i + 1, if j < k then j else j + 1;
      assert free'[i] == free[a] && free'[j] == free[b];
    }
  }

  lemma UnlinkKeeps(h: Heap, free: seq<int>, k: int)
    requires PagesOk(h) && 0 <= k < |free| && HasPage(h, free[k]) && !NonFull(h, free[k])
    requires k > 0 ==> HasPage(h, free[k - 1])
    ensures var h', free' := Unlink(h, free, k), free[..k] + free[k + 1..];
      && PagesOk(h') && (forall r :: At(h', r) == At(h, r))
      && (Complete(h, free) ==> Complete(h', free'))
  {
    var h', free' := Unlink(h, free, k), free[..k] + free[k + 1..];
    forall q | HasPage(h', q) ensures PageOk(h', q) {
      assert PageOk(h, q);
    }
    if Complete(h, free) {
      forall q | HasPage(h', q) && NonFull(h', q) ensures q in free' {
        assert q in free && q != free[k];
        var i :| 0 <= i < |free| && free[i] == q;
        assert free'[if i < k then i else i - 1] == q;
      }
    }
  }

  /** A page that has just lost a record of a full load goes to the front. */
  lemma ReleaseOk(h: Heap, free: seq<int>, rid: Rid)
    requires PagesOk(h) && ListOk(h, free) && IsRecord(h, rid) && rid.slot < |h.pages[rid.page].slots|
    requires !NonFull(h, rid.page)
    ensures var h' := Relink(ClearSlot(h, rid), rid.page, h.first).(first := rid.page);
      && HeapOk(h', [rid.page] + free) && (Complete(h, free) ==> Complete(h', [rid.page] + free))
      && Changed(h, h', rid, Absent)
  {
    var h', free' := Relink(ClearSlot(h, rid), rid.page, h.first).(first := rid.page), [rid.page] + free;
    ClearSlotOk(h, rid);
    RelinkOk(ClearSlot(h, rid), rid.page, h.first);
    forall p | HasPage(h', p) ensures PageOk(h', p) {
      assert PageOk(Relink(ClearSlot(h, rid), rid.page, h.first), p);
    }
    forall r ensures At(h', r) == if r == rid then Absent else At(h, r) {
      assert At(h', r) == At(Relink(ClearSlot(h, rid), rid.page, h.first), r);
    }
    forall i | 0 <= i < |free| ensures free[i] != rid.page {
      assert Listed(h, free, i);
    }
    forall i | 0 <= i < |free'| ensures Listed(h', free', i) {
      assert i > 0 ==> Listed(h, free, i - 1);
    }
    forall i, j | 0 <= i < j < |free'| ensures free'[i] != free'[j] {
      assert i > 0 ==> free'[i] == free[i - 1];
      assert free'[j] == free[j - 1];
    }
  }

  /** Deleting from a page that had room leaves the list alone. */
  lemma ClearSlotList(h: Heap, free: seq<int>, rid: Rid)
    requires PagesOk(h) && ListOk(h, free) && IsRecord(h, rid) && rid.slot < |h.pages[rid.page].slots|
    requires NonFull(h, rid.page)
    ensures var h' := ClearSlot(h, rid); ListOk(h', free) && (Complete(h, free) ==> Complete(h', free))
  {
    var h' := ClearSlot(h, rid);
    assert PageOk(h, rid.page);
    CountRange(h.pages[rid.page].bits);
    forall i | 0 <= i < |free| ensures Listed(h', free, i) {
      assert Listed(h, free, i);
    }
  }

  /** A new empty page becomes the whole list. */
  function Grown(h: Heap): Heap
    requires h.per >= 0
  {
    Heap(h.pages + [Page(NO_PAGE, 0, seq(h.per, _ => false), seq(h.per, _ => []))], |h.pages|, h.per)
  }

  lemma GrownOk(h: Heap)
    requires PagesOk(h)
    ensures HeapOk(Grown(h), [|h.pages|]) && forall r :: At(Grown(h), r) == At(h, r)
    ensures Complete(Grown(h), [|h.pages|]) <==> forall p :: HasPage(h, p) ==> !NonFull(h, p)
  {
    var h' := Grown(h);
    var n := |h.pages|;
    CountClear(h.per);
    forall p | HasPage(h', p) ensures PageOk(h', p) {
      assert p < n ==> PageOk(h, p);
    }
    assert Listed(h', [n], 0);
    forall p | HasPage(h, p) ensures HasPage(h', p) && (NonFull(h', p) <==> NonFull(h, p)) && p !in [n] {
      assert h'.pages[p] == h.pages[p];
    }
  }

  /** A list that misses a page: growing an empty file by two pages forgets the first, which is empty. */
  lemma GrowthLosesPage(per: nat)
    requires per >= 1
    ensures var one := Grown(Heap([Page(NO_PAGE, 0, [], [])], NO_PAGE, per));
      var two := Grown(one);
      && HeapOk(one, [1]) && Complete(one, [1])
      && HeapOk(two, [2]) && HasPage(two, 1) && NonFull(two, 1) && !Complete(two, [2])
  {
    var file := Heap([Page(NO_PAGE, 0, [], [])], NO_PAGE, per);
    GrownOk(file);
    GrownOk(Grown(file));
    assert HasPage(Grown(file), 1) && NonFull(Grown(file), 1);
  }

  // ---------- a file opened after a crash ----------

  /** Following the links from `p` meets pages with room only and comes to an end within `n` pages. */
  predicate Ends(h: Heap, p: int, n: nat)
    decreases n
  {
    p == NO_PAGE || (n > 0 && HasPage(h, p) && NonFull(h, p) && Ends(h, h.pages[p].next, n - 1))
  }

  function Walk(h: Heap, p: int, n: nat): seq<int>
    requires Ends(h, p, n)
    decreases n
  {
    if p == NO_PAGE then [] else [p] + Walk(h, h.pages[p].next, n - 1)
  }

  lemma {:induction false} LongerWalk(h: Heap, p: int, n: nat, m: nat)
    requires Ends(h, p, n) && n <= m
    ensures Ends(h, p, m) && Walk(h, p, m) == Walk(h, p, n)
    decreases n
  {
    if p != NO_PAGE {
      LongerWalk(h, h.pages[p].next, n - 1, m - 1);
    }
  }

  lemma {:induction false} WalkSuffix(h: Heap, p: int, n: nat, j: nat)
    requires Ends(h, p, n) && j < |Walk(h, p, n)|
    ensures var free := Walk(h, p, n);
      && j < n && Ends(h, free[j], n - j) && Walk(h, free[j], n - j) == free[j..]
      && Listed(h, free, j)
    decreases j
  {
    var free := Walk(h, p, n);
    if j > 0 {
      var rest := Walk(h, h.pages[p].next, n - 1);
      WalkSuffix(h, h.pages[p].next, n - 1, j - 1);
      assert free == [p] + rest && free[j..] == rest[j - 1..];
    } else {
      assert free[0..] == free && p != NO_PAGE;
      assert h.pages[p].next == Link(free, 1);
    }
  }

  /** A walk that ends meets no page twice. */
  lemma WalkOnce(h: Heap, p: int, n: nat, i: nat, j: nat)
    requires Ends(h, p, n) && i < j < |Walk(h, p, n)|
    ensures Walk(h, p, n)[i] != Walk(h, p, n)[j]
  {
    var free := Walk(h, p, n);
    WalkSuffix(h, p, n, i);
    WalkSuffix(h, p, n, j);
    if free[i] == free[j] {
      LongerWalk(h, free[j], n - j, n - i);
    }
  }

  lemma {:induction false} ListEnds(h: Heap, free: seq<int>, i: nat)
    requires ListOk(h, free) && i <= |free|
    ensures Ends(h, Link(free, i), |free| - i)
    decreases |free| - i
  {
    if i < |free| {
      assert Listed(h, free, i);
      ListEnds(h, free, i + 1);
    }
  }

  /** Whatever versions of its pages and its header a crash left on disk: the file has a sound free list exactly if the
      links from the header come to an end over pages with room.  A header that names a page that has filled up since,
      or one beyond the pages it counts, is not such. */
  lemma OpenedIsValid(h: Heap)
    requires PagesOk(h)
    ensures (exists free :: HeapOk(h, free)) <==> Ends(h, h.first, |h.pages|)
  {
    if Ends(h, h.first, |h.pages|) {
      var free := Walk(h, h.first, |h.pages|);
      forall i | 0 <= i < |free| ensures Listed(h, free, i) {
        WalkSuffix(h, h.first, |h.pages|, i);
      }
      forall i, j | 0 <= i < j < |free| ensures free[i] != free[j] {
        WalkOnce(h, h.first, |h.pages|, i, j);
      }
      assert HeapOk(h, free);
    }
    if exists free :: HeapOk(h, free) {
      var free :| HeapOk(h, free);
      forall i | 0 <= i < |free| ensures 0 <= free[i] < |h.pages| {
        assert Listed(h, free, i);
      }
      Q.NoDupFits(free, |h.pages|);
      ListEnds(h, free, 0);
      LongerWalk(h, h.first, |free|, |h.pages|);
    }
  }

  /** The header is written when the file is closed: a page filled since then is still named first, and no list fits. */
  lemma StaleHeaderNamesFullPage(h: Heap, rid: Rid, rec: Rec)
    requires PagesOk(h) && IsSlot(h, rid) && !h.pages[rid.page].bits[rid.slot] && h.pages[rid.page].count == h.per - 1
    requires rid.slot < |h.pages[rid.page].slots| && h.first == rid.page
    ensures forall free :: !HeapOk(SetSlot(h, rid, rec), free)
  {
    var after := SetSlot(h, rid, rec);
    SetSlotOk(h, rid, rec);
    OpenedIsValid(after);
    assert !NonFull(after, rid.page) && !Ends(after, after.first, |after.pages|);
  }
}
