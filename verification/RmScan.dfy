/** The table scan: from the first record position to the end, page by page. */
module RmScan {
  import opened Defs
  import opened PoolState
  import opened PoolRuns
  import opened Layout
  import opened RecordFile
  import opened RecordStore
  import Handle = RmFileHandle

  ghost predicate Occupied(f: File, rid: Rid) {
    Lookup(f, rid).Some?
  }

  predicate Before(a: Rid, b: Rid) {
    a.pageNo < b.pageNo || (a.pageNo == b.pageNo && a.slotNo < b.slotNo)
  }

  /** is_end. */
  predicate AtEnd(f: File, rid: Rid) {
    rid.slotNo == f.perPage && rid.pageNo >= f.numPages
  }

  /** Where the constructor starts. */
  function Start(f: File): Rid
    requires f.numPages > 1 ==> 1 in f.pages
  {
    if f.numPages > 1 then Rid(1, FirstBit(true, f.pages[1].bits)) else Rid(0, -1)
  }

  ghost predicate FirstPageHasRecord(f: File) {
    1 in f.pages && exists i :: 0 <= i < |f.pages[1].bits| && f.pages[1].bits[i]
  }

  /** The first record position at or after the start of page `p`, or the end position. */
  function FirstFrom(f: File, p: int): Rid
    requires PagesOk(f) && 1 <= p <= f.numPages
    decreases f.numPages - p
  {
    if p == f.numPages then Rid(p, f.perPage)
    else var i := FirstBit(true, f.pages[p].bits);
      if i == f.perPage then FirstFrom(f, p + 1) else Rid(p, i)
  }

  /** next. */
  function NextRid(f: File, rid: Rid): Rid
    requires PagesOk(f) && rid.pageNo in f.pages && -1 <= rid.slotNo <= f.perPage
  {
    assert PageOk(f, f.pages[rid.pageNo]);
    var i := NextBit(true, f.pages[rid.pageNo].bits, rid.slotNo);
    if i == f.perPage then FirstFrom(f, rid.pageNo + 1) else Rid(rid.pageNo, i)
  }

  /** `r` is the end or a record, and no record lies between `from` (exclusive) and `r`. */
  ghost predicate Follows(f: File, from: Rid, r: Rid) {
    && (AtEnd(f, r) || Occupied(f, r))
    && forall q | Occupied(f, q) && Before(from, q) :: q == r || Before(r, q)
  }

  lemma {:induction false} FirstFromFollows(f: File, p: int)
    requires PagesOk(f) && 1 <= p <= f.numPages
    ensures Follows(f, Rid(p, -1), FirstFrom(f, p)) && FirstFrom(f, p).pageNo >= p && Before(Rid(p, -1), FirstFrom(f, p))
    decreases f.numPages - p
  {
    if p < f.numPages {
      assert PageOk(f, f.pages[p]);
      if FirstBit(true, f.pages[p].bits) == f.perPage { FirstFromFollows(f, p + 1); }
    }
  }

  /** next moves to the very next record, or to the end. */
  lemma NextFollows(f: File, rid: Rid)
    requires PagesOk(f) && rid.pageNo in f.pages && -1 <= rid.slotNo <= f.perPage
    ensures Follows(f, rid, NextRid(f, rid)) && Before(rid, NextRid(f, rid))
  {
    assert PageOk(f, f.pages[rid.pageNo]);
    if NextBit(true, f.pages[rid.pageNo].bits, rid.slotNo) == f.perPage { FirstFromFollows(f, rid.pageNo + 1); }
  }

  /** The scan starts on a record exactly when page 1 holds one; otherwise it starts on no record and not at the end. */
  lemma StartsOnRecordIff(f: File)
    requires PagesOk(f)
    ensures Occupied(f, Start(f)) <==> FirstPageHasRecord(f)
    ensures !FirstPageHasRecord(f) ==> !AtEnd(f, Start(f))
    ensures FirstPageHasRecord(f) ==> forall q | Occupied(f, q) :: q == Start(f) || Before(Start(f), q)
  {
    if f.numPages > 1 { assert PageOk(f, f.pages[1]); }
  }

  lemma {:induction false} FirstFromEnds(f: File, p: int)
    requires PagesOk(f) && 1 <= p <= f.numPages
    ensures FirstFrom(f, p).pageNo <= f.numPages
    decreases f.numPages - p
  {
    if p < f.numPages && FirstBit(true, f.pages[p].bits) == f.perPage { FirstFromEnds(f, p + 1); }
  }

  /** A file without data pages: the scan starts on page 0, which is neither a record nor the end. */
  lemma NoDataPages(f: File)
    requires PagesOk(f) && f.numPages == 1
    ensures Start(f) == Rid(0, -1) && !Occupied(f, Start(f)) && !AtEnd(f, Start(f)) && forall r :: !Occupied(f, r)
  {
  }

  // ----- Frames for the pages, which the scan pins and never releases -----

  ghost function Idle(s: Pool): set<int> {
    set f | 0 <= f < |s.frames| && s.frames[f].pin == 0
  }

  /** The data pages of a file that are not held pinned. */
  ghost function Unheld(s: Pool, fd: int, numPages: int): set<int> {
    set p | 1 <= p < numPages && !Pinned(s, PageId(fd, p))
  }

  ghost function Slack(s: Pool, fd: int, numPages: int): int {
    |Idle(s)| - |Unheld(s, fd, numPages)|
  }

  /** Pages up to `k` are pinned. */
  ghost predicate HeldTo(s: Pool, fd: int, k: int, numPages: int) {
    forall q | 1 <= q <= k && q < numPages :: Pinned(s, PageId(fd, q))
  }

  lemma FetchHeld(s: Pool, p: PageId)
    requires Inv(s) && p.pageNo != INVALID_PAGE_ID && Fetch(s, p).0.Some?
    ensures var t := Fetch(s, p).1;
            && (forall q :: Pinned(t, q) <==> q == p || Pinned(s, q))
            && Idle(t) == (if Pinned(s, p) then Idle(s) else Idle(s) - {Fetch(s, p).0.value})
            && (!Pinned(s, p) ==> Fetch(s, p).0.value in Idle(s))
  {
    if p !in s.table {
      VictimIdle(s);
      FetchMiss(s, p);
      var f, t := VictimOf(s).value, Fetch(s, p).1;
      forall q ensures Pinned(t, q) <==> q == p || Pinned(s, q) {
        if q != p && q in s.table { assert q != s.frames[f].id ==> t.table[q] == s.table[q] != f; }
      }
    }
  }

  /** Each page a fetch newly pins takes one idle frame; a fetch fails only when no frame is idle. */
  lemma FetchSlack(s: Pool, fd: int, p: int, n: int)
    requires Inv(s) && 1 <= p < n
    ensures var (r, t) := Fetch(s, PageId(fd, p));
            && Slack(t, fd, n) == Slack(s, fd, n)
            && (r == None ==> Slack(s, fd, n) < 0)
            && (r.Some? ==> forall q :: Pinned(t, q) <==> q == PageId(fd, p) || Pinned(s, q))
  {
    var pid := PageId(fd, p);
    FetchReturns(s, pid);
    var (r, t) := Fetch(s, pid);
    if r.Some? {
      FetchHeld(s, pid);
      hide Fetch, Inv, Pinned, Idle;
      if !Pinned(s, pid) {
        assert Unheld(t, fd, n) == Unheld(s, fd, n) - {p} && p in Unheld(s, fd, n);
      } else {
        assert Unheld(t, fd, n) == Unheld(s, fd, n);
      }
    } else {
      assert Idle(s) == {} && p in Unheld(s, fd, n);
    }
  }

  ghost predicate SlotAfter(f: File, p: int, curr: int, slot: int) {
    p in f.pages && -1 <= curr <= |f.pages[p].bits| && slot == NextBit(true, f.pages[p].bits, curr)
  }

  lemma PageRange(f: File, p: int)
    requires PagesOk(f) && p in f.pages
    ensures 1 <= p < f.numPages
  {
  }

  lemma NextRidIs(f: File, rid: Rid, slot: int)
    requires PagesOk(f) && rid.pageNo in f.pages && -1 <= rid.slotNo <= f.perPage && SlotAfter(f, rid.pageNo, rid.slotNo, slot)
    ensures NextRid(f, rid) == if slot == f.perPage then FirstFrom(f, rid.pageNo + 1) else Rid(rid.pageNo, slot)
  {
  }

  lemma FirstFromIs(f: File, p: int, slot: int)
    requires PagesOk(f) && 1 <= p < f.numPages && SlotAfter(f, p, -1, slot)
    ensures FirstFrom(f, p) == if slot == f.perPage then FirstFrom(f, p + 1) else Rid(p, slot)
  {
  }

  lemma PastLast(f: File)
    requires PagesOk(f)
    ensures FirstFrom(f, f.numPages) == Rid(f.numPages, f.perPage)
  {
  }

  /** These page bytes carry the bits of page `p` of the file. */
  ghost predicate BitsOf(h: FileHdr, page: Bytes, f: File, p: int) {
    p in f.pages && IsPage(h, page) && Bits(h, page) == f.pages[p].bits
  }

  lemma FilePages(w: World, fd: int, h: FileHdr)
    requires StoreInv(w, fd, h)
    ensures var f := FileOf(w.pool, fd, h);
            PagesOk(f) && f.numPages == h.numPages && f.perPage == h.perPage && h.perPage >= 1
            && forall p | p in f.pages :: |f.pages[p].bits| == h.perPage
  {
    var f := FileOf(w.pool, fd, h);
    assert forall p | p in f.pages :: PageOk(f, f.pages[p]);
  }

  class RmScan {
    const file: Handle.RmFileHandle
    var rid: Rid

    constructor (file: Handle.RmFileHandle)
      ensures this.file == file
    {
      this.file, rid := file, Rid(0, -1);
    }

    ghost function Pages(): Pool
      reads file.bpm
    {
      file.bpm.world.pool
    }

    ghost function Room(): int
      reads file, file.bpm
    {
      Slack(Pages(), file.fd, file.hdr.numPages)
    }

    /** The handle is valid, on these contents, with this many idle frames to spare. */
    ghost predicate Over(f: File, room: int)
      reads file, file.bpm, file.bpm.pages, file.bpm.replacer, file.bpm.disk
    {
      file.Valid() && file.Contents() == f && Room() == room
    }

    ghost predicate HeldUpTo(k: int)
      reads file, file.bpm
    {
      HeldTo(Pages(), file.fd, k, file.hdr.numPages)
    }

    /** fetch_page_handle; a null page ends the scan. */
    method FetchBits(p: int, ghost f: File, ghost room: int) returns (r: Option<Bytes>)
      requires Over(f, room) && 1 <= p < file.hdr.numPages && HeldUpTo(p - 1)
      modifies file.bpm, file.bpm.pages, file.bpm.replacer, file.bpm.disk`pages
      ensures Over(f, room) && (r == None ==> room < 0)
      ensures r.Some? ==> BitsOf(file.hdr, r.value, f, p) && HeldUpTo(p)
    {
      hide Slack, Fetch, Inv, Pinned, StoreInv, FileOf, HeldTo;
      FetchKeepsRoom(p, f, room);
      r := file.TryFetchPage(p);
    }

    lemma FetchKeepsRoom(p: int, f: File, room: int)
      requires Over(f, room) && 1 <= p < file.hdr.numPages && HeldUpTo(p - 1)
      ensures Inv(Pages())
      ensures var (r, t) := Fetch(Pages(), PageId(file.fd, p));
              && Slack(t, file.fd, file.hdr.numPages) == room && (r == None ==> room < 0)
              && (r.Some? ==> HeldTo(t, file.fd, p, file.hdr.numPages))
    {
      FetchSlack(Pages(), file.fd, p, file.hdr.numPages);
      hide Slack, Fetch, FreeOk, TableOk, LruOk, Pinned, FileInv, SizesOk, FileOf;
    }

    lemma OverFacts(f: File, room: int)
      requires Over(f, room)
      ensures PagesOk(f) && f.numPages == file.hdr.numPages && f.perPage == file.hdr.perPage >= 1 && HeldUpTo(0)
      ensures forall p | p in f.pages :: |f.pages[p].bits| == f.perPage
    {
      hide Slack, Inv, FileOf;
      FilePages(file.bpm.world, file.fd, file.hdr);
    }

    lemma HeldBelow(k: int)
      requires HeldUpTo(k)
      ensures HeldUpTo(k - 1)
    {
    }

    lemma HeldPast(k: int)
      requires HeldUpTo(k - 1) && k >= file.hdr.numPages
      ensures HeldUpTo(k)
    {
    }

    /** The next record bit of page `p` behind `curr`. */
    method FetchSlot(p: int, curr: int, ghost f: File, ghost room: int) returns (slot: Option<int>)
      requires Over(f, room) && 1 <= p < f.numPages && HeldUpTo(p - 1) && -1 <= curr <= f.perPage
      modifies file.bpm, file.bpm.pages, file.bpm.replacer, file.bpm.disk`pages
      ensures Over(f, room) && (slot == None ==> room < 0)
      ensures slot.Some? ==> HeldUpTo(p) && SlotAfter(f, p, curr, slot.value)
    {
      hide Over, HeldUpTo, PagesOk;
      OverFacts(f, room);
      var page := FetchBits(p, f, room);
      if page == None { return None; }
      var i := Handle.NextBitOf(file.hdr, page.value, true, curr);
      slot := Some(i);
    }

    /** What the constructor does: stand on the first record of page 1. */
    method Begin(ghost f: File, ghost room: int) returns (ok: bool)
      requires Over(f, room)
      modifies this`rid, file.bpm, file.bpm.pages, file.bpm.replacer, file.bpm.disk`pages
      ensures Over(f, room) && PagesOk(f) && (!ok ==> room < 0)
      ensures ok ==> rid == Start(f) && HeldUpTo(rid.pageNo)
    {
      hide Over, HeldUpTo, PagesOk;
      OverFacts(f, room);
      if file.hdr.numPages > 1 {
        var slot := FetchSlot(1, -1, f, room);
        if slot == None { return false; }
        rid := Rid(1, slot.value);
      } else {
        rid := Rid(0, -1);
      }
      ok := true;
    }

    /** next: the loop over pages and bits. */
    method Advance(ghost f: File, ghost room: int) returns (ok: bool)
      requires Over(f, room) && PagesOk(f) && rid.pageNo in f.pages && -1 <= rid.slotNo <= f.perPage && HeldUpTo(rid.pageNo)
      modifies this`rid, file.bpm, file.bpm.pages, file.bpm.replacer, file.bpm.disk`pages
      ensures Over(f, room) && (!ok ==> room < 0)
      ensures ok ==> rid == NextRid(f, old(rid)) && HeldUpTo(rid.pageNo)
    {
      hide Over, HeldUpTo, PagesOk, SlotAfter, NextRid, FirstFrom;
      PageRange(f, rid.pageNo);
      OverFacts(f, room);
      HeldBelow(rid.pageNo);
      ghost var goal := NextRid(f, rid);
      var slot := FetchSlot(rid.pageNo, rid.slotNo, f, room);
      if slot == None { return false; }
      NextRidIs(f, rid, slot.value);
      rid := rid.(slotNo := slot.value);
      while rid.slotNo == file.hdr.perPage
        invariant Over(f, room) && HeldUpTo(rid.pageNo) && 1 <= rid.pageNo < f.numPages
        invariant goal == if rid.slotNo == f.perPage then FirstFrom(f, rid.pageNo + 1) else rid
        decreases f.numPages - rid.pageNo
      {
        rid := rid.(pageNo := rid.pageNo + 1);
        if rid.pageNo >= file.hdr.numPages {
          HeldPast(rid.pageNo);
          PastLast(f);
          return true;
        }
        slot := FetchSlot(rid.pageNo, -1, f, room);
        if slot == None { return false; }
        FirstFromIs(f, rid.pageNo, slot.value);
        rid := rid.(slotNo := slot.value);
      }
      ok := true;
    }

    /** With every data page held, the frames sufficed. */
    lemma AllHeld(f: File, room: int)
      requires Over(f, room) && HeldUpTo(rid.pageNo) && AtEnd(f, rid)
      ensures room >= 0
    {
      hide Pinned, Idle;
      OverFacts(f, room);
      assert Unheld(Pages(), file.fd, file.hdr.numPages) == {};
    }

    method IsEnd(ghost f: File, ghost room: int) returns (end: bool)
      requires Over(f, room)
      ensures end <==> AtEnd(f, rid)
    {
      hide Over;
      OverFacts(f, room);
      return rid.slotNo == file.hdr.perPage && rid.pageNo >= file.hdr.numPages;
    }
  }

  /**
   The callers' loop, on a file with data pages. It gets through if and only if there is an idle frame for every data page
   that is not held yet. Then it visits every record exactly once, in page and slot order, if and only if page 1 holds a
   record; otherwise it visits first a position that is no record, and then the records so.
   */
  method ScanAll(file: Handle.RmFileHandle) returns (ok: bool, rids: seq<Rid>)
    requires file.Valid() && file.hdr.numPages > 1
    modifies file.bpm, file.bpm.pages, file.bpm.replacer, file.bpm.disk`pages
    ensures file.Valid() && file.Contents() == old(file.Contents())
    ensures ok <==> old(|Unheld(file.bpm.world.pool, file.fd, file.hdr.numPages)|) <= old(|Idle(file.bpm.world.pool)|)
    ensures ok ==> (AllInOrder(file.Contents(), rids) <==> FirstPageHasRecord(file.Contents()))
    ensures ok ==> AllVisited(file.Contents(), rids)
  {
    ghost var f := file.Contents();
    var scan := new RmScan(file);
    ghost var room := scan.Room();
    assert scan.Over(f, room) && f.numPages > 1;
    hide Idle, Unheld;
    ok, rids := Visit(scan, f, room);
    if ok { OnlyWithRecord(f, rids); }
  }

  method Visit(scan: RmScan, ghost f: File, ghost room: int) returns (ok: bool, rids: seq<Rid>)
    requires scan.Over(f, room) && f.numPages > 1
    modifies scan`rid, scan.file.bpm, scan.file.bpm.pages, scan.file.bpm.replacer, scan.file.bpm.disk`pages
    ensures scan.Over(f, room) && PagesOk(f) && (ok <==> room >= 0) && (ok ==> AllVisited(f, rids))
  {
    hide RmScan.Over, RmScan.HeldUpTo, Visiting, PagesOk, NextRid, AllVisited;
    rids := [];
    ok := scan.Begin(f, room);
    if !ok { return; }
    VisitStart(f);
    var end := scan.IsEnd(f, room);
    while !end
      invariant scan.Over(f, room) && scan.HeldUpTo(scan.rid.pageNo)
      invariant Visiting(f, scan.rid, rids) && (end <==> AtEnd(f, scan.rid))
      decreases f.numPages - scan.rid.pageNo, f.perPage - scan.rid.slotNo
    {
      VisitStep(f, scan.rid, rids);
      rids := rids + [scan.rid];
      ok := scan.Advance(f, room);
      if !ok { return; }
      end := scan.IsEnd(f, room);
    }
    scan.AllHeld(f, room);
    VisitDone(f, scan.rid, rids);
  }

  /** Every record once, in page and slot order. */
  ghost predicate AllInOrder(f: File, rids: seq<Rid>) {
    (forall r :: r in rids <==> Occupied(f, r)) && forall i, j | 0 <= i < j < |rids| :: Before(rids[i], rids[j])
  }

  /** Every record in order, after one position that is no record if page 1 holds none. */
  ghost predicate AllVisited(f: File, rids: seq<Rid>) {
    if FirstPageHasRecord(f) then AllInOrder(f, rids)
    else rids != [] && rids[0] == Rid(1, f.perPage) && AllInOrder(f, rids[1..])
  }

  lemma OnlyWithRecord(f: File, rids: seq<Rid>)
    requires PagesOk(f) && AllVisited(f, rids)
    ensures AllInOrder(f, rids) <==> FirstPageHasRecord(f)
  {
    if !FirstPageHasRecord(f) { assert rids[0] in rids && !Occupied(f, rids[0]); }
  }

  /** A scan at `rid` has visited the records before it, in order. */
  ghost predicate Visited(f: File, rid: Rid, rids: seq<Rid>) {
    && PagesOk(f) && (AtEnd(f, rid) || Occupied(f, rid)) && rid.pageNo <= f.numPages && rid.slotNo <= f.perPage
    && (forall r :: r in rids <==> Occupied(f, r) && Before(r, rid))
    && (forall i, j | 0 <= i < j < |rids| :: Before(rids[i], rids[j]))
  }

  /** The same for a scan that may have started on a position that is no record. */
  ghost predicate Visiting(f: File, rid: Rid, rids: seq<Rid>) {
    && PagesOk(f) && f.numPages > 1
    && if FirstPageHasRecord(f) then Visited(f, rid, rids)
       else if rids == [] then rid == Rid(1, f.perPage)
       else rids[0] == Rid(1, f.perPage) && Visited(f, rid, rids[1..])
  }

  lemma VisitStart(f: File)
    requires PagesOk(f) && f.numPages > 1
    ensures Visiting(f, Start(f), [])
  {
    StartsOnRecordIff(f);
    assert PageOk(f, f.pages[1]);
  }

  lemma VisitNext(f: File, rid: Rid, rids: seq<Rid>)
    requires Visited(f, rid, rids) && !AtEnd(f, rid)
    ensures rid.pageNo in f.pages && 0 <= rid.slotNo < f.perPage
    ensures Visited(f, NextRid(f, rid), rids + [rid])
  {
    NextFollows(f, rid);
    FirstFromEnds(f, rid.pageNo + 1);
    hide NextRid, Occupied;
  }

  /** From the end of an empty first page the scan goes on to the first record of the file. */
  lemma VisitFirst(f: File)
    requires PagesOk(f) && f.numPages > 1 && !FirstPageHasRecord(f)
    ensures Visited(f, NextRid(f, Rid(1, f.perPage)), [])
  {
    NextFollows(f, Rid(1, f.perPage));
    FirstFromEnds(f, 2);
    assert forall r | Occupied(f, r) :: Before(Rid(1, f.perPage), r);
    hide NextRid, Occupied;
  }

  lemma VisitStep(f: File, rid: Rid, rids: seq<Rid>)
    requires Visiting(f, rid, rids) && !AtEnd(f, rid)
    ensures PagesOk(f) && rid.pageNo in f.pages && 0 <= rid.slotNo <= f.perPage
    ensures Visiting(f, NextRid(f, rid), rids + [rid]) && Before(rid, NextRid(f, rid))
    ensures NextRid(f, rid).pageNo <= f.numPages && NextRid(f, rid).slotNo <= f.perPage
  {
    if FirstPageHasRecord(f) {
      VisitNext(f, rid, rids);
    } else if rids == [] {
      VisitFirst(f);
      assert (rids + [rid])[1..] == [];
    } else {
      VisitNext(f, rid, rids[1..]);
      assert (rids + [rid])[1..] == rids[1..] + [rid];
    }
    NextFollows(f, rid);
    hide NextRid, FirstPageHasRecord, Occupied;
  }

  lemma VisitDone(f: File, rid: Rid, rids: seq<Rid>)
    requires Visiting(f, rid, rids) && AtEnd(f, rid)
    ensures AllVisited(f, rids)
  {
  }
}
