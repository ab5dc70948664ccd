/**
 The record file in bytes on top of the buffer pool: what each record operation does to the pages,
 over runs that mix record operations with pool traffic on other files, and what close_file leaves.
 */
module RecordStore {
  import opened Defs
  import opened PoolState
  import opened PoolRuns
  import opened Layout
  import opened RecordFile

  // ----- Page edits -----

  /** insert_record's writes to a page. */
  function InsertBytes(h: FileHdr, page: Bytes, i: int, buf: Bytes): (r: Bytes)
    requires IsPage(h, page) && 0 <= i < h.perPage && |buf| == h.recordSize
    ensures |r| == PAGE_SIZE
  {
    SetNum(SetBit(h, PutSlot(h, page, i, buf), i, true), View(h, page).num + 1)
  }

  /** delete_record's writes to a page. */
  function DeleteBytes(h: FileHdr, page: Bytes, i: int): (r: Bytes)
    requires IsPage(h, page) && 0 <= i < h.perPage
    ensures |r| == PAGE_SIZE
  {
    var cleared := SetBit(h, page, i, false);
    SetNum(if View(h, page).num == h.perPage then SetNext(cleared, h.firstFree) else cleared, View(h, page).num - 1)
  }

  /** create_new_page_handle's writes to a page. */
  function BlankBytes(h: FileHdr, page: Bytes): (r: Bytes)
    requires IsPage(h, page)
    ensures |r| == PAGE_SIZE
  {
    ClearBitmap(h, SetNum(SetNext(page, h.firstFree), 0))
  }

  lemma InsertBytesView(h: FileHdr, page: Bytes, i: int, buf: Bytes)
    requires IsPage(h, page) && 0 <= i < h.perPage && |buf| == h.recordSize && IsInt32(View(h, page).num + 1)
    ensures var v := View(h, page);
            View(h, InsertBytes(h, page, i, buf)) == v.(slots := v.slots[i := buf], bits := v.bits[i := true], num := v.num + 1)
  {
    var p1 := PutSlot(h, page, i, buf);
    var p2 := SetBit(h, p1, i, true);
    PutSlotView(h, page, i, buf);
    SetBitView(h, p1, i, true);
    SetNumView(h, p2, View(h, page).num + 1);
  }

  lemma DeleteBytesView(h: FileHdr, page: Bytes, i: int)
    requires IsPage(h, page) && 0 <= i < h.perPage && IsInt32(View(h, page).num - 1) && IsInt32(h.firstFree)
    ensures var v := View(h, page);
            View(h, DeleteBytes(h, page, i)) ==
              v.(bits := v.bits[i := false], num := v.num - 1, next := if v.num == h.perPage then h.firstFree else v.next)
  {
    var p1 := SetBit(h, page, i, false);
    SetBitView(h, page, i, false);
    SetNextView(h, p1, h.firstFree);
    SetNumView(h, if View(h, page).num == h.perPage then SetNext(p1, h.firstFree) else p1, View(h, page).num - 1);
  }

  lemma BlankBytesView(h: FileHdr)
    requires HdrOk(h) && IsInt32(h.firstFree)
    ensures h.perPage >= 0 && View(h, BlankBytes(h, ZeroPage())) ==
            PageView(h.firstFree, 0, seq(h.perPage, _ => false), seq(h.perPage, _ => seq(h.recordSize, _ => 0)))
  {
    HdrFits(h);
    var p1 := SetNext(ZeroPage(), h.firstFree);
    SetNextView(h, ZeroPage(), h.firstFree);
    SetNumView(h, p1, 0);
    ClearBitmapView(h, SetNum(p1, 0));
    forall i | 0 <= i < h.perPage ensures Slots(h, ZeroPage())[i] == seq(h.recordSize, _ => 0) { SlotFits(h, i); }
  }

  // ----- The file a pool state holds -----

  ghost predicate SizesOk(s: Pool, fd: int, h: FileHdr) {
    HdrOk(h) && forall p | 1 <= p < h.numPages :: |Logical(s, PageId(fd, p))| == PAGE_SIZE
  }

  ghost function FileOf(s: Pool, fd: int, h: FileHdr): File
    requires SizesOk(s, fd, h)
  {
    File(h.recordSize, h.perPage, h.numPages, h.firstFree,
         map p | 1 <= p < h.numPages :: View(h, Logical(s, PageId(fd, p))))
  }

  ghost predicate StoreInv(w: World, fd: int, h: FileHdr) {
    && WorldInv(w) && SizesOk(w.pool, fd, h) && FileInv(FileOf(w.pool, fd, h))
    && Next(w.pool, fd) == h.numPages && IsInt32(h.numPages) && IsInt32(h.firstFree)
    && PageId(fd, 0) !in w.pool.table
  }

  /** The page's contents do not depend on the header fields that change. */
  lemma ViewSameLayout(h: FileHdr, numPages: int, firstFree: int, page: Bytes)
    requires IsPage(h, page)
    ensures View(h.(numPages := numPages, firstFree := firstFree), page) == View(h, page)
  {
    var g := h.(numPages := numPages, firstFree := firstFree);
    forall i | 0 <= i < h.perPage ensures Slots(g, page)[i] == Slots(h, page)[i] && Bits(g, page)[i] == Bits(h, page)[i] { SlotFits(h, i); }
  }

  predicate Pinned(s: Pool, p: PageId) {
    p in s.table && IsFrame(s, s.table[p]) && s.frames[s.table[p]].pin > 0
  }

  /** A write to a pinned page of the file, together with a new list head, edits exactly that page of the file. */
  lemma WriteEffect(w: World, fd: int, h: FileHdr, p: int, bytes: Bytes, firstFree: int)
    requires StoreInv(w, fd, h) && 1 <= p < h.numPages && Pinned(w.pool, PageId(fd, p)) && |bytes| == PAGE_SIZE
    ensures var (w', g) := (Step(w, WriteOp(PageId(fd, p), bytes)), h.(firstFree := firstFree));
            && WorldInv(w') && SizesOk(w'.pool, fd, g) && Next(w'.pool, fd) == g.numPages && w'.pool.table == w.pool.table
            && FileOf(w'.pool, fd, g) ==
               FileOf(w.pool, fd, h).(firstFree := firstFree, pages := FileOf(w.pool, fd, h).pages[p := View(h, bytes)])
  {
    var pid := PageId(fd, p);
    StepKeeps(w, WriteOp(pid, bytes));
    WriteKeeps(w.pool, pid, bytes);
    EditedFile(w.pool, Write(w.pool, pid, bytes), fd, h, p, bytes, firstFree);
    hide WorldInv, FileInv, HdrOk, Logical, Write, View, SizesOk, FileOf, SameCounters;
  }

  lemma EditedFile(s: Pool, t: Pool, fd: int, h: FileHdr, p: int, bytes: Bytes, firstFree: int)
    requires SizesOk(s, fd, h) && 1 <= p < h.numPages && |bytes| == PAGE_SIZE
    requires forall q :: Logical(t, PageId(fd, q)) == if q == p then bytes else Logical(s, PageId(fd, q))
    ensures var g := h.(firstFree := firstFree);
            && SizesOk(t, fd, g)
            && FileOf(t, fd, g) == FileOf(s, fd, h).(firstFree := firstFree, pages := FileOf(s, fd, h).pages[p := View(h, bytes)])
  {
    hide Logical, View;
    var g := h.(firstFree := firstFree);
    forall q | 1 <= q < h.numPages
      ensures |Logical(t, PageId(fd, q))| == PAGE_SIZE
      ensures View(g, Logical(t, PageId(fd, q))) == View(h, Logical(t, PageId(fd, q)))
    {
      ViewSameLayout(h, h.numPages, firstFree, Logical(t, PageId(fd, q)));
    }
  }

  /** Operations that set no page of the file, keep its counter and do not bring in page 0 leave the file alone. */
  lemma QuietStep(w: World, fd: int, h: FileHdr, op: Op)
    requires StoreInv(w, fd, h) && Allowed(w, op)
    requires forall p | p in Sets(w.pool, op) :: p.fd != fd
    requires Next(StepPool(w.pool, op), fd) == h.numPages && PageId(fd, 0) !in StepPool(w.pool, op).table
    ensures StoreInv(Step(w, op), fd, h) && FileOf(Step(w, op).pool, fd, h) == FileOf(w.pool, fd, h)
  {
    assert op.WriteOp? ==> op.p in w.pool.table;
    hide Allowed, Sets, StepPool, FileInv, CountersOk, WrittenOk, Ordered, HdrOk, Logical, View, Touched, Released;
    StepKeeps(w, op);
    forall q ensures Logical(Step(w, op).pool, PageId(fd, q)) == Logical(w.pool, PageId(fd, q)) { StepLogical(w, op, PageId(fd, q)); }
    SameFile(w.pool, Step(w, op).pool, fd, h);
  }

  lemma SameFile(s: Pool, t: Pool, fd: int, h: FileHdr)
    requires SizesOk(s, fd, h) && forall q | 1 <= q < h.numPages :: Logical(t, PageId(fd, q)) == Logical(s, PageId(fd, q))
    ensures SizesOk(t, fd, h) && FileOf(t, fd, h) == FileOf(s, fd, h)
  {
  }

  /** fetch_page_handle on a page of the file, whether or not the pool has a frame for it. */
  lemma FetchQuiet(w: World, fd: int, h: FileHdr, p: int)
    requires StoreInv(w, fd, h) && 1 <= p < h.numPages
    ensures Allowed(w, FetchOp(PageId(fd, p)))
    ensures var w' := Step(w, FetchOp(PageId(fd, p)));
            StoreInv(w', fd, h) && FileOf(w'.pool, fd, h) == FileOf(w.pool, fd, h)
  {
    var pid := PageId(fd, p);
    FetchFrame(w.pool, pid);
    hide WorldInv, SizesOk, FileInv, Fetch;
    QuietStep(w, fd, h, FetchOp(pid));
  }

  /** fetch_page_handle on a page of the file. */
  lemma FetchEffect(w: World, fd: int, h: FileHdr, p: int)
    requires StoreInv(w, fd, h) && 1 <= p < h.numPages && Fetch(w.pool, PageId(fd, p)).0.Some?
    ensures Allowed(w, FetchOp(PageId(fd, p)))
    ensures var w' := Step(w, FetchOp(PageId(fd, p)));
            StoreInv(w', fd, h) && FileOf(w'.pool, fd, h) == FileOf(w.pool, fd, h) && Pinned(w'.pool, PageId(fd, p))
  {
    FetchReturns(w.pool, PageId(fd, p));
    hide WorldInv, SizesOk, FileInv, Fetch;
    FetchQuiet(w, fd, h, p);
  }

  lemma FetchFrame(s: Pool, p: PageId)
    requires Inv(s) && p.pageNo != INVALID_PAGE_ID
    ensures Fetch(s, p).1.next == s.next && Fetch(s, p).1.table.Keys <= s.table.Keys + {p}
  {
    if p !in s.table && VictimOf(s).Some? { FetchMiss(s, p); }
  }

  // ----- Record operations -----

  predicate RidOk(h: FileHdr, rid: Rid) {
    1 <= rid.pageNo < h.numPages && 0 <= rid.slotNo < h.perPage
  }

  /** Write a record to a page that is open, and unlink the page if that filled it. */
  ghost function StoreRecord(w: World, fd: int, h: FileHdr, rid: Rid, buf: Bytes): (World, FileHdr)
    requires StoreInv(w, fd, h) && RidOk(h, rid) && |buf| == h.recordSize && Pinned(w.pool, PageId(fd, rid.pageNo))
  {
    var pid := PageId(fd, rid.pageNo);
    var page := Logical(w.pool, pid);
    var v := View(h, page);
    (Step(w, WriteOp(pid, InsertBytes(h, page, rid.slotNo, buf))), if v.num + 1 >= h.perPage then h.(firstFree := v.next) else h)
  }

  lemma SmallPage(h: FileHdr)
    requires HdrOk(h)
    ensures h.perPage <= PAGE_SIZE
  {
    assert h.recordSize >= 1;
    hide HdrOk;
    HdrFits(h);
    AtLeast(h.perPage, h.recordSize);
  }

  lemma AtLeast(n: nat, r: int)
    requires r >= 1
    ensures n <= n * r
  {
  }

  lemma StoreEffect(w: World, fd: int, h: FileHdr, rid: Rid, buf: Bytes)
    requires StoreInv(w, fd, h) && RidOk(h, rid) && |buf| == h.recordSize && Pinned(w.pool, PageId(fd, rid.pageNo))
    ensures InFile(FileOf(w.pool, fd, h), rid)
    ensures var (w', g) := StoreRecord(w, fd, h, rid, buf);
            && WorldInv(w') && SizesOk(w'.pool, fd, g) && FileOf(w'.pool, fd, g) == PutRecord(FileOf(w.pool, fd, h), rid, buf)
            && (StoreInv(w', fd, g) <==> CanPut(FileOf(w.pool, fd, h), rid)) && g.(firstFree := h.firstFree) == h
  {
    hide WorldInv, FileInv, HdrOk, Logical, View, InsertBytes, Step, CanPut, SizesOk, FileOf, PutRecord;
    var f := FileOf(w.pool, fd, h);
    var page := Logical(w.pool, PageId(fd, rid.pageNo));
    PageFacts(w, fd, h, rid.pageNo);
    var v := View(h, page);
    InsertBytesView(h, page, rid.slotNo, buf);
    PutKeepsIff(f, rid, buf);
    var first := if v.num + 1 >= h.perPage then v.next else h.firstFree;
    var bytes := InsertBytes(h, page, rid.slotNo, buf);
    WriteEffect(w, fd, h, rid.pageNo, bytes, first);
    PutIs(f, rid, buf, View(h, bytes), first);
    assert h.(firstFree := first) == if v.num + 1 >= h.perPage then h.(firstFree := v.next) else h;
  }

  lemma PutIs(f: File, rid: Rid, buf: Bytes, w: PageView, first: int)
    requires InFile(f, rid)
    requires var v := f.pages[rid.pageNo];
             && w == v.(slots := v.slots[rid.slotNo := buf], bits := v.bits[rid.slotNo := true], num := v.num + 1)
             && first == if v.num + 1 >= f.perPage then v.next else f.firstFree
    ensures f.(firstFree := first, pages := f.pages[rid.pageNo := w]) == PutRecord(f, rid, buf)
  {
  }

  /** What the invariant says about one page of the file. */
  lemma PageFacts(w: World, fd: int, h: FileHdr, p: int)
    requires StoreInv(w, fd, h) && 1 <= p < h.numPages
    ensures var page := Logical(w.pool, PageId(fd, p));
            && IsPage(h, page) && p in FileOf(w.pool, fd, h).pages && FileOf(w.pool, fd, h).pages[p] == View(h, page)
            && 0 <= View(h, page).num <= h.perPage <= PAGE_SIZE && IsInt32(View(h, page).next)
            && FileOf(w.pool, fd, h).perPage == h.perPage && FileOf(w.pool, fd, h).firstFree == h.firstFree
            && FileOf(w.pool, fd, h).numPages == h.numPages && FileOf(w.pool, fd, h).recordSize == h.recordSize
            && |View(h, page).bits| == |View(h, page).slots| == h.perPage
  {
    SmallPage(h);
    var f := FileOf(w.pool, fd, h);
    assert PageOk(f, f.pages[p]);
  }

  lemma NewIsPinned(w: World, fd: int)
    requires WorldInv(w) && NewPage(w.pool, fd).0.Some?
    ensures var t, pid := Step(w, NewOp(fd)).pool, PageId(fd, Next(w.pool, fd));
            && WorldInv(Step(w, NewOp(fd))) && Pinned(t, pid) && Next(t, fd) == Next(w.pool, fd) + 1
            && t.table.Keys <= w.pool.table.Keys + {pid}
            && forall q | q != pid :: Logical(t, q) == Logical(w.pool, q)
  {
    StepKeeps(w, NewOp(fd));
    NewPageReturns(w.pool, fd);
    NewPageInstalls(w.pool, fd);
    WrittenClean(w.pool, w.written);
    CleanVictimSafe(w.pool);
  }

  /** A new page and the first write to it. */
  ghost function NewWritten(w: World, fd: int, bytes: Bytes): World
    requires WorldInv(w) && NewPage(w.pool, fd).0.Some?
  {
    NewIsPinned(w, fd);
    Step(Step(w, NewOp(fd)), WriteOp(PageId(fd, Next(w.pool, fd)), bytes))
  }

  lemma NewWrittenEffect(w: World, fd: int, bytes: Bytes)
    requires WorldInv(w) && NewPage(w.pool, fd).0.Some?
    ensures var w', pid := NewWritten(w, fd, bytes), PageId(fd, Next(w.pool, fd));
            && WorldInv(w') && Next(w'.pool, fd) == Next(w.pool, fd) + 1 && Pinned(w'.pool, pid)
            && w'.pool.table.Keys <= w.pool.table.Keys + {pid}
            && forall q :: Logical(w'.pool, q) == if q == pid then bytes else Logical(w.pool, q)
  {
    NewIsPinned(w, fd);
    var u, pid := Step(w, NewOp(fd)), PageId(fd, Next(w.pool, fd));
    hide NewPage, Logical, CountersOk, WrittenOk, Ordered;
    StepKeeps(u, WriteOp(pid, bytes));
    WriteKeeps(u.pool, pid, bytes);
    assert NewWritten(w, fd, bytes).pool == Write(u.pool, pid, bytes);
  }

  /** create_new_page_handle. */
  ghost function OpenNew(w: World, fd: int, h: FileHdr): (World, FileHdr)
    requires StoreInv(w, fd, h) && NewPage(w.pool, fd).0.Some?
  {
    (NewWritten(w, fd, BlankBytes(h, ZeroPage())), h.(numPages := h.numPages + 1, firstFree := h.numPages))
  }

  lemma AddedFile(s: Pool, t: Pool, fd: int, h: FileHdr)
    requires SizesOk(s, fd, h) && h.numPages >= 1 && IsInt32(h.firstFree)
    requires forall q :: Logical(t, PageId(fd, q)) == if q == h.numPages then BlankBytes(h, ZeroPage()) else Logical(s, PageId(fd, q))
    ensures h.perPage >= 0
    ensures var g := h.(numPages := h.numPages + 1, firstFree := h.numPages);
            SizesOk(t, fd, g) && FileOf(t, fd, g) == AddPage(FileOf(s, fd, h))
  {
    BlankBytesView(h);
    var g := h.(numPages := h.numPages + 1, firstFree := h.numPages);
    hide Logical, View, BlankBytes, Capacity, BitmapSize, Bits, Slots;
    forall q | 1 <= q <= h.numPages
      ensures |Logical(t, PageId(fd, q))| == PAGE_SIZE
      ensures View(g, Logical(t, PageId(fd, q))) == View(h, Logical(t, PageId(fd, q)))
    {
      ViewSameLayout(h, g.numPages, g.firstFree, Logical(t, PageId(fd, q)));
    }
  }

  lemma OpenNewEffect(w: World, fd: int, h: FileHdr)
    requires StoreInv(w, fd, h) && NewPage(w.pool, fd).0.Some? && IsInt32(h.numPages + 1)
    ensures h.perPage >= 1 && h.recordSize >= 1 && h.numPages >= 1
    ensures var (w', g) := OpenNew(w, fd, h);
            && StoreInv(w', fd, g) && FileOf(w'.pool, fd, g) == AddPage(FileOf(w.pool, fd, h))
            && Pinned(w'.pool, PageId(fd, h.numPages))
  {
    hide WorldInv, FileInv, HdrOk, Logical, View, NewWritten, BlankBytes, NewPage, Pinned;
    var (w', g) := OpenNew(w, fd, h);
    FileInvFacts(FileOf(w.pool, fd, h));
    NewWrittenEffect(w, fd, BlankBytes(h, ZeroPage()));
    AddedFile(w.pool, w'.pool, fd, h);
    AddPageKeeps(FileOf(w.pool, fd, h));
  }

  lemma FileInvFacts(f: File)
    requires FileInv(f)
    ensures f.numPages >= 1 && f.perPage >= 1 && f.recordSize >= 1
  {
  }

  /** create_page_handle: the head of the list of pages with room, or a new page if the list is empty. */
  ghost function Open(w: World, fd: int, h: FileHdr): (World, FileHdr)
    requires StoreInv(w, fd, h) && CanOpen(w, fd, h)
  {
    if h.firstFree < 0 then OpenNew(w, fd, h) else (Step(w, FetchOp(PageId(fd, h.firstFree))), h)
  }

  /** The pool does not run out of frames for create_page_handle. */
  ghost predicate CanOpen(w: World, fd: int, h: FileHdr)
    requires Inv(w.pool)
  {
    if h.firstFree < 0 then NewPage(w.pool, fd).0.Some? && IsInt32(h.numPages + 1)
    else Fetch(w.pool, PageId(fd, h.firstFree)).0.Some?
  }

  lemma HeadInFile(f: File)
    requires FileInv(f)
    ensures f.firstFree >= 0 ==> 1 <= f.firstFree < f.numPages
  {
    var list :| FreeChain(f, list);
  }

  lemma OpenEffect(w: World, fd: int, h: FileHdr)
    requires StoreInv(w, fd, h) && CanOpen(w, fd, h)
    ensures h.perPage >= 0 && h.recordSize >= 0
    ensures var (w', g) := Open(w, fd, h);
            && StoreInv(w', fd, g) && FileOf(w'.pool, fd, g) == WithRoom(FileOf(w.pool, fd, h))
            && 1 <= g.firstFree < g.numPages && Pinned(w'.pool, PageId(fd, g.firstFree))
            && g.recordSize == h.recordSize && g.perPage == h.perPage
  {
    hide WorldInv, FileInv, HdrOk, OpenNew, NewPage, Fetch, SizesOk, Step, Pinned;
    FileInvFacts(FileOf(w.pool, fd, h));
    HeadInFile(FileOf(w.pool, fd, h));
    if h.firstFree < 0 { OpenNewEffect(w, fd, h); } else { FetchEffect(w, fd, h, h.firstFree); }
  }

  /** insert_record. */
  ghost function InsertAnywhere(w: World, fd: int, h: FileHdr, buf: Bytes): (World, FileHdr)
    requires StoreInv(w, fd, h) && CanOpen(w, fd, h) && |buf| == h.recordSize
  {
    OpenEffect(w, fd, h);
    var (u, g) := Open(w, fd, h);
    PageFacts(u, fd, g, g.firstFree);
    WithRoomHead(FileOf(w.pool, fd, h));
    StoreRecord(u, fd, g, Rid(g.firstFree, FirstBit(false, View(g, Logical(u.pool, PageId(fd, g.firstFree))).bits)), buf)
  }

  lemma InsertEffect(w: World, fd: int, h: FileHdr, buf: Bytes)
    requires StoreInv(w, fd, h) && CanOpen(w, fd, h) && |buf| == h.recordSize
    ensures var (w', g) := InsertAnywhere(w, fd, h, buf);
            && StoreInv(w', fd, g) && FileOf(w'.pool, fd, g) == Insert(FileOf(w.pool, fd, h), buf)
            && g.recordSize == h.recordSize && g.perPage == h.perPage
  {
    var f := FileOf(w.pool, fd, h);
    OpenEffect(w, fd, h);
    var (u, g) := Open(w, fd, h);
    PageFacts(u, fd, g, g.firstFree);
    WithRoomHead(f);
    var rid := InsertRid(f);
    assert rid == Rid(g.firstFree, FirstBit(false, View(g, Logical(u.pool, PageId(fd, g.firstFree))).bits));
    assert CanPut(FileOf(u.pool, fd, g), rid);
    StoreEffect(u, fd, g, rid, buf);
  }

  ghost predicate CanFetch(w: World, fd: int, p: int)
    requires Inv(w.pool)
  {
    Fetch(w.pool, PageId(fd, p)).0.Some?
  }

  /** insert_record at a position. */
  ghost function InsertAt(w: World, fd: int, h: FileHdr, rid: Rid, buf: Bytes): (World, FileHdr)
    requires StoreInv(w, fd, h) && RidOk(h, rid) && |buf| == h.recordSize && CanFetch(w, fd, rid.pageNo)
  {
    FetchEffect(w, fd, h, rid.pageNo);
    StoreRecord(Step(w, FetchOp(PageId(fd, rid.pageNo))), fd, h, rid, buf)
  }

  lemma InsertAtEffect(w: World, fd: int, h: FileHdr, rid: Rid, buf: Bytes)
    requires StoreInv(w, fd, h) && RidOk(h, rid) && |buf| == h.recordSize && CanFetch(w, fd, rid.pageNo)
    ensures InFile(FileOf(w.pool, fd, h), rid)
    ensures var (w', g) := InsertAt(w, fd, h, rid, buf);
            && WorldInv(w') && SizesOk(w'.pool, fd, g) && FileOf(w'.pool, fd, g) == PutRecord(FileOf(w.pool, fd, h), rid, buf)
            && (StoreInv(w', fd, g) <==> CanPut(FileOf(w.pool, fd, h), rid))
            && g.recordSize == h.recordSize && g.perPage == h.perPage
  {
    hide CountersOk, WrittenOk, Ordered, FreeOk, TableOk, LruOk, FileInv, HdrOk, Fetch, SizesOk;
    hide Step, Pinned, StoreRecord, CanPut, PutRecord, FileOf;
    FetchEffect(w, fd, h, rid.pageNo);
    StoreEffect(Step(w, FetchOp(PageId(fd, rid.pageNo))), fd, h, rid, buf);
  }

  /** delete_record. */
  ghost function Remove(w: World, fd: int, h: FileHdr, rid: Rid): (World, FileHdr)
    requires StoreInv(w, fd, h) && RidOk(h, rid) && CanFetch(w, fd, rid.pageNo)
  {
    FetchEffect(w, fd, h, rid.pageNo);
    var pid := PageId(fd, rid.pageNo);
    var u := Step(w, FetchOp(pid));
    var page := Logical(u.pool, pid);
    (Step(u, WriteOp(pid, DeleteBytes(h, page, rid.slotNo))),
     if View(h, page).num == h.perPage then h.(firstFree := rid.pageNo) else h)
  }

  lemma RemoveEffect(w: World, fd: int, h: FileHdr, rid: Rid)
    requires StoreInv(w, fd, h) && RidOk(h, rid) && CanFetch(w, fd, rid.pageNo)
    ensures InFile(FileOf(w.pool, fd, h), rid)
    ensures var (w', g) := Remove(w, fd, h, rid);
            && WorldInv(w') && SizesOk(w'.pool, fd, g) && FileOf(w'.pool, fd, g) == DeleteRecord(FileOf(w.pool, fd, h), rid)
            && (StoreInv(w', fd, g) <==> Lookup(FileOf(w.pool, fd, h), rid).Some?)
            && g.recordSize == h.recordSize && g.perPage == h.perPage
  {
    hide CountersOk, WrittenOk, Ordered, FreeOk, TableOk, LruOk, FileInv, HdrOk, Fetch, SizesOk;
    hide Step, Pinned, Logical, View, DeleteBytes, FileOf, DeleteRecord;
    FetchEffect(w, fd, h, rid.pageNo);
    var pid := PageId(fd, rid.pageNo);
    var u := Step(w, FetchOp(pid));
    var page := Logical(u.pool, pid);
    PageFacts(u, fd, h, rid.pageNo);
    var v := View(h, page);
    DeleteBytesView(h, page, rid.slotNo);
    var f := FileOf(w.pool, fd, h);
    DeleteKeepsIff(f, rid);
    var first := if v.num == h.perPage then rid.pageNo else h.firstFree;
    WriteEffect(u, fd, h, rid.pageNo, DeleteBytes(h, page, rid.slotNo), first);
    DeleteIs(f, rid, View(h, DeleteBytes(h, page, rid.slotNo)), first);
    assert h.(firstFree := first) == if v.num == h.perPage then h.(firstFree := rid.pageNo) else h;
  }

  lemma DeleteIs(f: File, rid: Rid, w: PageView, first: int)
    requires InFile(f, rid)
    requires var v := f.pages[rid.pageNo];
             && w == v.(bits := v.bits[rid.slotNo := false], num := v.num - 1, next := if v.num == f.perPage then f.firstFree else v.next)
             && first == if v.num == f.perPage then rid.pageNo else f.firstFree
    ensures f.(firstFree := first, pages := f.pages[rid.pageNo := w]) == DeleteRecord(f, rid)
  {
  }

  /** update_record. */
  ghost function Update(w: World, fd: int, h: FileHdr, rid: Rid, buf: Bytes): World
    requires StoreInv(w, fd, h) && RidOk(h, rid) && |buf| == h.recordSize && CanFetch(w, fd, rid.pageNo)
  {
    FetchEffect(w, fd, h, rid.pageNo);
    var pid := PageId(fd, rid.pageNo);
    var u := Step(w, FetchOp(pid));
    Step(u, WriteOp(pid, PutSlot(h, Logical(u.pool, pid), rid.slotNo, buf)))
  }

  lemma UpdateEffect(w: World, fd: int, h: FileHdr, rid: Rid, buf: Bytes)
    requires StoreInv(w, fd, h) && RidOk(h, rid) && |buf| == h.recordSize && CanFetch(w, fd, rid.pageNo)
    requires InFile(FileOf(w.pool, fd, h), rid)
    ensures var w' := Update(w, fd, h, rid, buf);
            StoreInv(w', fd, h) && FileOf(w'.pool, fd, h) == UpdateRecord(FileOf(w.pool, fd, h), rid, buf)
  {
    hide CountersOk, WrittenOk, Ordered, FreeOk, TableOk, LruOk, FileInv, HdrOk, Fetch, SizesOk, Step, Pinned, Logical, PutSlot, FileOf;
    FetchEffect(w, fd, h, rid.pageNo);
    var pid := PageId(fd, rid.pageNo);
    var u := Step(w, FetchOp(pid));
    PageFacts(u, fd, h, rid.pageNo);
    PutSlotView(h, Logical(u.pool, pid), rid.slotNo, buf);
    UpdateKeeps(FileOf(w.pool, fd, h), rid, buf);
    WriteEffect(u, fd, h, rid.pageNo, PutSlot(h, Logical(u.pool, pid), rid.slotNo, buf), h.firstFree);
    assert h.(firstFree := h.firstFree) == h;
  }

  // ----- Runs -----

  /** Operations on the file, and pool operations that concern other files. */
  datatype RecOp =
    | InsertOp(buf: Bytes)
    | InsertAtOp(rid: Rid, buf: Bytes)
    | RemoveOp(rid: Rid)
    | UpdateOp(rid: Rid, buf: Bytes)
    | ReadOp(rid: Rid)
    | OtherOp(op: Op)

  predicate Foreign(op: Op, fd: int) {
    match op
    case NewOp(x) => x != fd
    case FlushAllOp(x) => true
    case OpenOp(x, _) => x != fd
    case _ => op.p.fd != fd
  }

  /** The callers' part: positions in the file, sound ones for positional insert and delete, and a pool that has a frame. */
  ghost predicate RecAllowed(w: World, fd: int, h: FileHdr, op: RecOp)
    requires StoreInv(w, fd, h)
  {
    var f := FileOf(w.pool, fd, h);
    match op
    case InsertOp(buf) => |buf| == h.recordSize && CanOpen(w, fd, h)
    case InsertAtOp(rid, buf) => RidOk(h, rid) && |buf| == h.recordSize && CanFetch(w, fd, rid.pageNo) && InFile(f, rid) && CanPut(f, rid)
    case RemoveOp(rid) => RidOk(h, rid) && CanFetch(w, fd, rid.pageNo) && InFile(f, rid) && Lookup(f, rid).Some?
    case UpdateOp(rid, buf) => RidOk(h, rid) && |buf| == h.recordSize && CanFetch(w, fd, rid.pageNo) && InFile(f, rid)
    case ReadOp(rid) => RidOk(h, rid) && CanFetch(w, fd, rid.pageNo)
    case OtherOp(o) => Foreign(o, fd) && Allowed(w, o)
  }

  ghost function RecStep(w: World, fd: int, h: FileHdr, op: RecOp): (World, FileHdr)
    requires StoreInv(w, fd, h) && RecAllowed(w, fd, h, op)
  {
    match op
    case InsertOp(buf) => InsertAnywhere(w, fd, h, buf)
    case InsertAtOp(rid, buf) => InsertAt(w, fd, h, rid, buf)
    case RemoveOp(rid) => Remove(w, fd, h, rid)
    case UpdateOp(rid, buf) => (Update(w, fd, h, rid, buf), h)
    case ReadOp(rid) => (Step(w, FetchOp(PageId(fd, rid.pageNo))), h)
    case OtherOp(o) => (Step(w, o), h)
  }

  /** The record map after an operation. */
  ghost function MapStep(f: File, m: map<Rid, Bytes>, op: RecOp): map<Rid, Bytes>
    requires FileInv(f)
  {
    match op
    case InsertOp(buf) => m[InsertRid(f) := buf]
    case InsertAtOp(rid, buf) => m[rid := buf]
    case RemoveOp(rid) => m - {rid}
    case UpdateOp(rid, buf) => if rid in m then m[rid := buf] else m
    case _ => m
  }

  ghost predicate Holds(f: File, m: map<Rid, Bytes>) {
    forall rid :: Lookup(f, rid) == if rid in m then Some(m[rid]) else None
  }

  lemma ForeignQuiet(w: World, fd: int, h: FileHdr, op: Op)
    requires StoreInv(w, fd, h) && Foreign(op, fd) && Allowed(w, op)
    ensures forall p | p in Sets(w.pool, op) :: p.fd != fd
    ensures Next(StepPool(w.pool, op), fd) == h.numPages && PageId(fd, 0) !in StepPool(w.pool, op).table
  {
    var s := w.pool;
    match op
    case FetchOp(p) => FetchFrame(s, p);
    case NewOp(x) => if VictimOf(s).Some? { NewPageInstalls(s, x); }
    case DeleteOp(p) => DeleteKeeps(s, p);
    case FlushAllOp(x) => FlushAllKeeps(s, x, |s.frames|);
    case _ =>
  }

  /** Each operation keeps the store and does to the record map what it promises. */
  lemma RecStepKeeps(w: World, fd: int, h: FileHdr, op: RecOp, m: map<Rid, Bytes>)
    requires StoreInv(w, fd, h) && RecAllowed(w, fd, h, op) && Holds(FileOf(w.pool, fd, h), m)
    ensures var (w', g) := RecStep(w, fd, h, op);
            && StoreInv(w', fd, g) && Holds(FileOf(w'.pool, fd, g), MapStep(FileOf(w.pool, fd, h), m, op))
            && g.recordSize == h.recordSize
  {
    hide CountersOk, WrittenOk, Ordered, FreeOk, TableOk, LruOk, FileInv, HdrOk, Fetch, SizesOk, Step, FileOf, Lookup, InFile,
         InsertAnywhere, InsertAt, Remove, Update, Insert, PutRecord, DeleteRecord, UpdateRecord, Allowed, Foreign, CanPut, CanOpen;
    var f := FileOf(w.pool, fd, h);
    match op
    case InsertOp(buf) =>
      InsertEffect(w, fd, h, buf);
      InsertKeeps(f, buf);
    case InsertAtOp(rid, buf) =>
      InsertAtEffect(w, fd, h, rid, buf);
      forall r ensures Lookup(PutRecord(f, rid, buf), r) == if r == rid then Some(buf) else Lookup(f, r) { PutLookup(f, rid, buf, r); }
    case RemoveOp(rid) =>
      RemoveEffect(w, fd, h, rid);
      DeleteKeepsIff(f, rid);
    case UpdateOp(rid, buf) =>
      UpdateEffect(w, fd, h, rid, buf);
      UpdateKeeps(f, rid, buf);
    case ReadOp(rid) => FetchEffect(w, fd, h, rid.pageNo);
    case OtherOp(o) =>
      ForeignQuiet(w, fd, h, o);
      QuietStep(w, fd, h, o);
  }

  ghost predicate RecRunAllowed(w: World, fd: int, h: FileHdr, ops: seq<RecOp>)
    decreases ops
  {
    ops == [] || (StoreInv(w, fd, h) && RecAllowed(w, fd, h, ops[0])
                  && var (w', g) := RecStep(w, fd, h, ops[0]); RecRunAllowed(w', fd, g, ops[1..]))
  }

  ghost function RecRun(w: World, fd: int, h: FileHdr, ops: seq<RecOp>): (World, FileHdr)
    requires RecRunAllowed(w, fd, h, ops)
    decreases ops
  {
    if ops == [] then (w, h) else var (w', g) := RecStep(w, fd, h, ops[0]); RecRun(w', fd, g, ops[1..])
  }

  ghost function MapRun(w: World, fd: int, h: FileHdr, ops: seq<RecOp>, m: map<Rid, Bytes>): map<Rid, Bytes>
    requires RecRunAllowed(w, fd, h, ops)
    decreases ops
  {
    if ops == [] then m else
      var (w', g) := RecStep(w, fd, h, ops[0]);
      MapRun(w', fd, g, ops[1..], MapStep(FileOf(w.pool, fd, h), m, ops[0]))
  }

  /** Over every run the file is a map from rid to bytes, with its page counts, dense pages and free list intact. */
  lemma {:induction false} RecRunKeeps(w: World, fd: int, h: FileHdr, ops: seq<RecOp>, m: map<Rid, Bytes>)
    requires StoreInv(w, fd, h) && Holds(FileOf(w.pool, fd, h), m) && RecRunAllowed(w, fd, h, ops)
    ensures var (w', g) := RecRun(w, fd, h, ops);
            StoreInv(w', fd, g) && Holds(FileOf(w'.pool, fd, g), MapRun(w, fd, h, ops, m))
    decreases ops
  {
    hide WorldInv, SizesOk, FileInv, FileOf, Holds, RecStep, MapStep, RecAllowed;
    if ops != [] {
      RecStepKeeps(w, fd, h, ops[0], m);
      var (w', g) := RecStep(w, fd, h, ops[0]);
      RecRunKeeps(w', fd, g, ops[1..], MapStep(FileOf(w.pool, fd, h), m, ops[0]));
    }
  }

  // ----- The file's pages stay pinned and are never marked dirty -----

  ghost predicate Held(s: Pool, fd: int) {
    forall p | p in s.table && p.fd == fd && IsFrame(s, s.table[p]) :: s.frames[s.table[p]].pin > 0 && !s.frames[s.table[p]].dirty
  }

  lemma InstalledHeld(s: Pool, p: PageId, data: Bytes, fd: int)
    requires Inv(s) && Held(s, fd) && VictimOf(s).Some? && IsFrame(s, VictimOf(s).value)
    ensures Held(Installed(s, VictimOf(s).value, p, data), fd)
  {
    VictimIdle(s);
    var f := VictimOf(s).value;
    var t := Installed(s, f, p, data);
    assert forall q | q in t.table && q != p :: q in s.table && t.table[q] == s.table[q];
  }

  lemma {:induction false} FlushAllHeld(s: Pool, fd: int, n: nat)
    requires n <= |s.frames|
    ensures var t := FlushAll(s, fd, n);
            && t.table == s.table
            && forall g | 0 <= g < |s.frames| :: t.frames[g].pin == s.frames[g].pin && (t.frames[g].dirty ==> s.frames[g].dirty)
  {
    if n > 0 { FlushAllHeld(s, fd, n - 1); }
  }

  lemma HeldStep(w: World, op: Op, fd: int)
    requires WorldInv(w) && Allowed(w, op) && Held(w.pool, fd) && (Foreign(op, fd) || op.FetchOp? || op.NewOp? || op.WriteOp?)
    ensures Held(Step(w, op).pool, fd)
  {
    hide CountersOk, WrittenOk, Ordered;
    var s := w.pool;
    match op
    case FetchOp(p) =>
      if p !in s.table && VictimOf(s).Some? {
        FetchMiss(s, p);
        InstalledHeld(s, p, Logical(s, p), fd);
      }
    case NewOp(x) =>
      if VictimOf(s).Some? {
        NewPageInstalls(s, x);
        InstalledHeld(s, PageId(x, Next(s, x)), ZeroPage(), fd);
      }
    case FlushAllOp(x) => FlushAllHeld(s, x, |s.frames|);
    case DeleteOp(p) => if p in s.table && s.frames[s.table[p]].pin == 0 { DeleteFrames(s, p); }
    case _ => assert forall p, q | p in s.table && q in s.table && p != q :: s.table[p] != s.table[q];
  }

  lemma NewWrittenHeld(w: World, fd: int, bytes: Bytes)
    requires WorldInv(w) && NewPage(w.pool, fd).0.Some? && Held(w.pool, fd)
    ensures Held(NewWritten(w, fd, bytes).pool, fd)
  {
    hide CountersOk, WrittenOk, Ordered, FreeOk, TableOk, LruOk, Held, Step, NewPage;
    NewIsPinned(w, fd);
    HeldStep(w, NewOp(fd), fd);
    HeldStep(Step(w, NewOp(fd)), WriteOp(PageId(fd, Next(w.pool, fd)), bytes), fd);
  }

  lemma FetchWriteHeld(w: World, fd: int, h: FileHdr, p: int, bytes: Bytes)
    requires StoreInv(w, fd, h) && 1 <= p < h.numPages && CanFetch(w, fd, p) && Held(w.pool, fd)
    ensures Allowed(w, FetchOp(PageId(fd, p))) && Pinned(Step(w, FetchOp(PageId(fd, p))).pool, PageId(fd, p))
    ensures Held(Step(w, FetchOp(PageId(fd, p))).pool, fd)
    ensures Inv(Step(w, FetchOp(PageId(fd, p))).pool)
    ensures Held(Step(Step(w, FetchOp(PageId(fd, p))), WriteOp(PageId(fd, p), bytes)).pool, fd)
  {
    hide CountersOk, WrittenOk, Ordered, FreeOk, TableOk, LruOk, SizesOk, FileInv, Held, Step, Fetch;
    FetchEffect(w, fd, h, p);
    HeldStep(w, FetchOp(PageId(fd, p)), fd);
    HeldStep(Step(w, FetchOp(PageId(fd, p))), WriteOp(PageId(fd, p), bytes), fd);
  }

  lemma InsertHeld(w: World, fd: int, h: FileHdr, buf: Bytes)
    requires StoreInv(w, fd, h) && CanOpen(w, fd, h) && |buf| == h.recordSize && Held(w.pool, fd)
    ensures Held(InsertAnywhere(w, fd, h, buf).0.pool, fd)
  {
    OpenEffect(w, fd, h);
    var (u, g) := Open(w, fd, h);
    PageFacts(u, fd, g, g.firstFree);
    WithRoomHead(FileOf(w.pool, fd, h));
    HeadInFile(FileOf(w.pool, fd, h));
    var page := Logical(u.pool, PageId(fd, g.firstFree));
    var slot := FirstBit(false, View(g, page).bits);
    var bytes := InsertBytes(g, page, slot, buf);
    assert InsertAnywhere(w, fd, h, buf).0 == Step(u, WriteOp(PageId(fd, g.firstFree), bytes));
    hide InsertAnywhere, WorldInv, SizesOk, FileInv, Held, Step, Fetch, NewPage, InsertBytes, NewWritten, BlankBytes, WithRoom;
    if h.firstFree < 0 {
      NewWrittenHeld(w, fd, BlankBytes(h, ZeroPage()));
    } else {
      FetchWriteHeld(w, fd, h, h.firstFree, bytes);
    }
    HeldStep(u, WriteOp(PageId(fd, g.firstFree), bytes), fd);
  }

  lemma RecHeld(w: World, fd: int, h: FileHdr, op: RecOp)
    requires StoreInv(w, fd, h) && RecAllowed(w, fd, h, op) && Held(w.pool, fd)
    ensures Held(RecStep(w, fd, h, op).0.pool, fd)
  {
    hide CountersOk, WrittenOk, Ordered, FreeOk, TableOk, LruOk, FileInv, HdrOk, Fetch, SizesOk, Held, Step, FileOf, InsertAnywhere,
         CanPut, CanOpen, InsertBytes, DeleteBytes, PutSlot, View, Logical, Lookup, InFile;
    match op
    case InsertOp(buf) => InsertHeld(w, fd, h, buf);
    case InsertAtOp(rid, buf) =>
      FetchEffect(w, fd, h, rid.pageNo);
      var u := Step(w, FetchOp(PageId(fd, rid.pageNo)));
      PageFacts(u, fd, h, rid.pageNo);
      FetchWriteHeld(w, fd, h, rid.pageNo, InsertBytes(h, Logical(u.pool, PageId(fd, rid.pageNo)), rid.slotNo, buf));
    case RemoveOp(rid) =>
      FetchEffect(w, fd, h, rid.pageNo);
      var u := Step(w, FetchOp(PageId(fd, rid.pageNo)));
      PageFacts(u, fd, h, rid.pageNo);
      FetchWriteHeld(w, fd, h, rid.pageNo, DeleteBytes(h, Logical(u.pool, PageId(fd, rid.pageNo)), rid.slotNo));
    case UpdateOp(rid, buf) =>
      FetchEffect(w, fd, h, rid.pageNo);
      var u := Step(w, FetchOp(PageId(fd, rid.pageNo)));
      PageFacts(u, fd, h, rid.pageNo);
      FetchWriteHeld(w, fd, h, rid.pageNo, PutSlot(h, Logical(u.pool, PageId(fd, rid.pageNo)), rid.slotNo, buf));
    case ReadOp(rid) => FetchWriteHeld(w, fd, h, rid.pageNo, []);
    case OtherOp(o) => HeldStep(w, o, fd);
  }

  /**
   Over every run the cached pages of the file stay pinned and none is ever marked dirty, so none is evicted and what
   reaches the disk reaches it by a flush.
   */
  lemma {:induction false} RecRunHeld(w: World, fd: int, h: FileHdr, ops: seq<RecOp>, m: map<Rid, Bytes>)
    requires StoreInv(w, fd, h) && Holds(FileOf(w.pool, fd, h), m) && RecRunAllowed(w, fd, h, ops) && Held(w.pool, fd)
    ensures Held(RecRun(w, fd, h, ops).0.pool, fd)
    decreases ops
  {
    hide WorldInv, SizesOk, FileInv, FileOf, Holds, RecStep, MapStep, RecAllowed, Held;
    if ops != [] {
      RecStepKeeps(w, fd, h, ops[0], m);
      RecHeld(w, fd, h, ops[0]);
      var (w', g) := RecStep(w, fd, h, ops[0]);
      RecRunHeld(w', fd, g, ops[1..], MapStep(FileOf(w.pool, fd, h), m, ops[0]));
    }
  }

  /** The bytes in the frame fetch_page returns. */
  ghost function FetchedData(s: Pool, p: PageId): (data: Bytes)
    requires Inv(s) && p.pageNo != INVALID_PAGE_ID && Fetch(s, p).0.Some?
    ensures data == Logical(s, p)
  {
    FetchReturns(s, p);
    Fetch(s, p).1.frames[Fetch(s, p).0.value].data
  }

  /** get_record returns the bytes the record map holds. */
  lemma ReadReturns(w: World, fd: int, h: FileHdr, rid: Rid, m: map<Rid, Bytes>)
    requires StoreInv(w, fd, h) && Holds(FileOf(w.pool, fd, h), m) && rid in m && rid.pageNo != INVALID_PAGE_ID
    requires Fetch(w.pool, PageId(fd, rid.pageNo)).0.Some?
    ensures RidOk(h, rid)
    ensures var page := FetchedData(w.pool, PageId(fd, rid.pageNo)); IsPage(h, page) && Slot(h, page, rid.slotNo) == m[rid]
  {
    hide WorldInv, HdrOk, FileInv, Logical, FetchedData, Fetch;
    var f := FileOf(w.pool, fd, h);
    assert Lookup(f, rid) == Some(m[rid]);
  }

  // ----- Closing and opening again -----

  function EncodeHdr(h: FileHdr): (b: Bytes)
    ensures |b| == FILE_HDR_SIZE
  {
    Encode32(h.recordSize) + Encode32(h.numPages) + Encode32(h.perPage) + Encode32(h.firstFree) + Encode32(h.bitmapSize)
  }

  function DecodeHdr(b: Bytes): FileHdr
    requires |b| >= FILE_HDR_SIZE
  {
    FileHdr(Decode32(b[0..4]), Decode32(b[4..8]), Decode32(b[8..12]), Decode32(b[12..16]), Decode32(b[16..20]))
  }

  /** Page 0 begins with this header: five four-byte numbers. */
  ghost predicate HdrAt(page: Bytes, h: FileHdr) {
    && |page| >= 20 && NumberAt(page, 0) == h.recordSize && NumberAt(page, 4) == h.numPages && NumberAt(page, 8) == h.perPage
    && NumberAt(page, 12) == h.firstFree && NumberAt(page, 16) == h.bitmapSize
  }

  lemma HdrPlaces(page: Bytes)
    requires |page| >= FILE_HDR_SIZE
    ensures HdrAt(page, DecodeHdr(page))
  {
    hide Decode32, Encode32, Unsigned;
    LittleEndian(0, page, 0);
    LittleEndian(0, page, 4);
    LittleEndian(0, page, 8);
    LittleEndian(0, page, 12);
    LittleEndian(0, page, 16);
  }

  lemma HdrRoundTrip(h: FileHdr, rest: Bytes)
    requires IsInt32(h.recordSize) && IsInt32(h.numPages) && IsInt32(h.perPage) && IsInt32(h.firstFree) && IsInt32(h.bitmapSize)
    ensures DecodeHdr(EncodeHdr(h) + rest) == h && HdrAt(EncodeHdr(h) + rest, h)
  {
    hide Encode32, Decode32, HdrAt;
    HdrPlaces(EncodeHdr(h) + rest);
    var b := EncodeHdr(h) + rest;
    assert b[0..4] == Encode32(h.recordSize) && b[4..8] == Encode32(h.numPages) && b[8..12] == Encode32(h.perPage)
        && b[12..16] == Encode32(h.firstFree) && b[16..20] == Encode32(h.bitmapSize);
    Int32RoundTrip(h.recordSize);
    Int32RoundTrip(h.numPages);
    Int32RoundTrip(h.perPage);
    Int32RoundTrip(h.firstFree);
    Int32RoundTrip(h.bitmapSize);
  }

  /** write_page of the header alone: the first bytes of page 0, past the pool. */
  function WriteHdr(s: Pool, fd: int, h: FileHdr): Pool {
    var prev := DiskRead(s.disk, PageId(fd, 0));
    s.(disk := s.disk[PageId(fd, 0) := EncodeHdr(h) + if |prev| > FILE_HDR_SIZE then prev[FILE_HDR_SIZE..] else []])
  }

  lemma WriteHdrInv(s: Pool, fd: int, h: FileHdr)
    requires Inv(s)
    ensures Inv(WriteHdr(s, fd, h))
  {
    hide EncodeHdr;
  }

  /** close_file: the header, then every cached page of the file. */
  function CloseFile(s: Pool, fd: int, h: FileHdr): Pool {
    FlushAll(WriteHdr(s, fd, h), fd, |s.frames|)
  }

  lemma CloseDisk(w: World, fd: int, h: FileHdr, p: int)
    requires StoreInv(w, fd, h)
    ensures var disk := CloseFile(w.pool, fd, h).disk;
            && |DiskRead(disk, PageId(fd, 0))| >= FILE_HDR_SIZE && DecodeHdr(DiskRead(disk, PageId(fd, 0))) == h
            && HdrAt(DiskRead(disk, PageId(fd, 0)), h)
            && (p != 0 ==> DiskRead(disk, PageId(fd, p)) == Logical(w.pool, PageId(fd, p)))
  {
    var s := WriteHdr(w.pool, fd, h);
    WriteHdrInv(w.pool, fd, h);
    hide FreeOk, LruOk, HdrAt, CountersOk, WrittenOk, Ordered, FileInv;
    FlushAllPersists(s, fd, PageId(fd, 0));
    FlushAllPersists(s, fd, PageId(fd, p));
    var prev := DiskRead(w.pool.disk, PageId(fd, 0));
    SmallPage(h);
    HdrRoundTrip(h, if |prev| > FILE_HDR_SIZE then prev[FILE_HDR_SIZE..] else []);
  }

  /** A pool just started, on this disk, with the file opened: the handle's constructor set its counter from the header. */
  ghost predicate JustOpened(s: Pool, disk: map<PageId, Bytes>, fd: int, h: FileHdr) {
    Fresh(s) && s.disk == disk && Next(s, fd) == h.numPages
  }

  /**
   After close_file a new handle reads back the same header, and the disk decodes to the same pages: the
   same records and the same list of pages with room, whatever the dirty bits say.
   */
  lemma CloseThenOpen(w: World, fd: int, h: FileHdr, s: Pool)
    requires StoreInv(w, fd, h)
    requires var disk := CloseFile(w.pool, fd, h).disk;
             |DiskRead(disk, PageId(fd, 0))| >= FILE_HDR_SIZE && JustOpened(s, disk, fd, DecodeHdr(DiskRead(disk, PageId(fd, 0))))
    ensures DecodeHdr(DiskRead(s.disk, PageId(fd, 0))) == h
    ensures StoreInv(World(s, {}, 0, map[], multiset{}), fd, h) && FileOf(s, fd, h) == FileOf(w.pool, fd, h)
  {
    hide WorldInv, HdrOk, FileInv, Logical, CloseFile, View, Fresh;
    CloseDisk(w, fd, h, 0);
    FreshWorld(s);
    FreshTable(s);
    forall q | 1 <= q < h.numPages ensures Logical(s, PageId(fd, q)) == Logical(w.pool, PageId(fd, q)) {
      CloseDisk(w, fd, h, q);
      FreshLogical(s, PageId(fd, q));
    }
    SameFile(w.pool, s, fd, h);
  }

  lemma FreshTable(s: Pool)
    requires Fresh(s)
    ensures s.table == map[]
  {
  }

  lemma FreshLogical(s: Pool, p: PageId)
    requires Fresh(s)
    ensures Logical(s, p) == DiskRead(s.disk, p)
  {
  }
}
