/** The record file handle, the record manager's create and close, and the bitmap search, in place. */
module RmFileHandle {
  import opened Defs
  import opened PoolState
  import opened PoolRuns
  import opened Layout
  import opened RecordFile
  import opened RecordStore
  import opened BufferPool

  /** Bitmap::next_bit on the bytes of a page. */
  method NextBitOf(h: FileHdr, page: Bytes, bit: bool, curr: int) returns (i: int)
    requires IsPage(h, page) && -1 <= curr <= h.perPage
    ensures i == NextBit(bit, Bits(h, page), curr)
  {
    if curr == h.perPage { return curr; }
    i := curr + 1;
    while i < h.perPage
      invariant curr < i <= h.perPage
      invariant forall j | curr < j < i :: Bits(h, page)[j] != bit
    {
      SlotFits(h, i);
      if BitAt(page, i) == bit {
        NextBitIs(bit, Bits(h, page), curr, i);
        return;
      }
      i := i + 1;
    }
    NextBitIs(bit, Bits(h, page), curr, i);
  }

  lemma NextBitIs(bit: bool, bits: seq<bool>, curr: int, i: int)
    requires -1 <= curr < i <= |bits| && (i < |bits| ==> bits[i] == bit)
    requires forall j | curr < j < i :: bits[j] != bit
    ensures i == NextBit(bit, bits, curr)
  {
  }

  class RmFileHandle {
    const bpm: BufferPoolManager
    const fd: int
    var hdr: FileHdr

    ghost predicate Valid()
      reads this, bpm, bpm.pages, bpm.replacer, bpm.disk
    {
      bpm.Valid() && StoreInv(bpm.world, fd, hdr)
    }

    /** Opening: read the header past the pool and start allocating after the pages it counts. */
    constructor (bpm: BufferPoolManager, fd: int)
      requires bpm.Valid() && |DiskRead(bpm.disk.pages, PageId(fd, 0))| >= FILE_HDR_SIZE
      requires forall p | p in bpm.pageTable :: p.fd != fd
      modifies bpm`world, bpm.disk`fd2pageno
      ensures this.bpm == bpm && this.fd == fd && bpm.Valid()
      ensures hdr == DecodeHdr(DiskRead(bpm.disk.pages, PageId(fd, 0))) && bpm.world == Step(old(bpm.world), OpenOp(fd, hdr.numPages))
      ensures HdrAt(DiskRead(bpm.disk.pages, PageId(fd, 0)), hdr) && Next(bpm.State(), fd) == hdr.numPages
    {
      hide FreeOk, TableOk, LruOk, CleanOk, Decode32, HdrAt;
      this.bpm, this.fd := bpm, fd;
      var data := bpm.disk.ReadPage(PageId(fd, 0));
      HdrPlaces(data);
      hdr := DecodeHdr(data);
      new;
      NextIrrelevant(bpm.State(), bpm.disk.fd2pageno[fd := hdr.numPages]);
      bpm.world := Step(bpm.world, OpenOp(fd, hdr.numPages));
      bpm.disk.fd2pageno := bpm.disk.fd2pageno[fd := hdr.numPages];
    }

    /** The file as page views. */
    ghost function Contents(): File
      requires Valid()
      reads this, bpm, bpm.pages, bpm.replacer, bpm.disk
    {
      FileOf(bpm.world.pool, fd, hdr)
    }

    /** fetch_page_handle on a page of the file, when the pool has a frame for it. */
    method FetchPageHandle(p: int) returns (f: int, page: Bytes)
      requires Valid() && 1 <= p < hdr.numPages && CanFetch(bpm.world, fd, p)
      modifies bpm, bpm.pages, bpm.replacer, bpm.disk`pages
      ensures Valid() && bpm.world == Step(old(bpm.world), FetchOp(PageId(fd, p))) && Contents() == old(Contents())
      ensures HoldsPage(f, p, page)
    {
      FetchEffect(bpm.world, fd, hdr, p);
      FetchReturns(bpm.world.pool, PageId(fd, p));
      var r := bpm.FetchPage(PageId(fd, p));
      f := r.value;
      page := bpm.pages[f].data;
      PageFacts(bpm.world, fd, hdr, p);
    }

    /** fetch_page_handle on a page of the file, or nothing where the pool returns a null page. */
    method TryFetchPage(p: int) returns (r: Option<Bytes>)
      requires Valid() && 1 <= p < hdr.numPages
      modifies bpm, bpm.pages, bpm.replacer, bpm.disk`pages
      ensures Valid() && bpm.world.pool == old(Fetch(bpm.world.pool, PageId(fd, p))).1 && Contents() == old(Contents())
      ensures r.Some? <==> old(Fetch(bpm.world.pool, PageId(fd, p))).0.Some?
      ensures r.Some? ==> p in Contents().pages && IsPage(hdr, r.value) && Bits(hdr, r.value) == Contents().pages[p].bits
    {
      FetchQuiet(bpm.world, fd, hdr, p);
      FetchReturns(bpm.world.pool, PageId(fd, p));
      hide WorldInv, FileInv, HdrOk, Fetch;
      var f := bpm.FetchPage(PageId(fd, p));
      if f == None { return None; }
      PageFacts(bpm.world, fd, hdr, p);
      r := Some(bpm.pages[f.value].data);
    }

    /** The page `p` is held in frame `f` and has these bytes. */
    ghost predicate HoldsPage(f: int, p: int, page: Bytes)
      reads this, bpm, bpm.pages
    {
      var pid := PageId(fd, p);
      && 1 <= p < hdr.numPages && pid in bpm.pageTable && bpm.pageTable[pid] == f
      && 0 <= f < bpm.pages.Length && bpm.pages[f].pin > 0 && page == bpm.pages[f].data
      && page == Logical(bpm.world.pool, pid) && IsPage(hdr, page)
    }

    /** new_page for this file. */
    method AllocatePage() returns (pid: PageId, f: int)
      requires Valid() && PoolState.NewPage(bpm.world.pool, fd).0.Some?
      modifies bpm, bpm.pages, bpm.replacer, bpm.disk
      ensures bpm.Valid() && bpm.world == Step(old(bpm.world), NewOp(fd)) && pid == PageId(fd, hdr.numPages)
      ensures pid in bpm.pageTable && bpm.pageTable[pid] == f && 0 <= f < bpm.pages.Length && bpm.pages[f].pin > 0
      ensures bpm.pages[f].data == ZeroPage()
    {
      NewPageReturns(bpm.world.pool, fd);
      var r := bpm.NewPage(fd);
      pid, f := r.value.0, r.value.1;
    }

    /** create_new_page_handle, when the pool has a frame for it. */
    method CreateNewPageHandle() returns (f: int, page: Bytes)
      requires Valid() && PoolState.NewPage(bpm.world.pool, fd).0.Some? && IsInt32(hdr.numPages + 1)
      modifies this`hdr, bpm, bpm.pages, bpm.replacer, bpm.disk
      ensures Valid() && (bpm.world, hdr) == OpenNew(old(bpm.world), fd, old(hdr))
      ensures HoldsPage(f, hdr.firstFree, page)
    {
      hide WorldInv, FileInv, HdrOk, PoolState.NewPage, FileOf, Pinned, BlankBytes, Inv;
      ghost var w, h := bpm.world, hdr;
      OpenNewEffect(w, fd, h);
      var pid;
      pid, f := AllocatePage();
      page := BlankBytes(hdr, bpm.pages[f].data);
      bpm.WriteFrame(pid, f, page);
      hdr := hdr.(numPages := hdr.numPages + 1, firstFree := pid.pageNo);
      assert (bpm.world, hdr) == OpenNew(w, fd, h);
      PageFacts(bpm.world, fd, hdr, pid.pageNo);
    }

    /** create_page_handle. */
    method CreatePageHandle() returns (f: int, page: Bytes)
      requires Valid() && CanOpen(bpm.world, fd, hdr)
      modifies this`hdr, bpm, bpm.pages, bpm.replacer, bpm.disk
      ensures Valid() && (bpm.world, hdr) == Open(old(bpm.world), fd, old(hdr))
      ensures HoldsPage(f, hdr.firstFree, page)
    {
      hide WorldInv, SizesOk, FileInv, HdrOk, PoolState.NewPage, Fetch, Pinned, OpenNew;
      HeadInFile(Contents());
      if hdr.firstFree < 0 {
        f, page := CreateNewPageHandle();
      } else {
        f, page := FetchPageHandle(hdr.firstFree);
      }
    }

    /** Copy the record into its slot, mark the slot, count it, and unlink the page if it is full now. */
    method PutIntoPage(f: int, page: Bytes, rid: Rid, buf: Bytes)
      requires Valid() && HoldsPage(f, rid.pageNo, page) && RidOk(hdr, rid) && |buf| == hdr.recordSize
      requires Pinned(bpm.world.pool, PageId(fd, rid.pageNo))
      modifies this`hdr, bpm`world, bpm.pages
      ensures bpm.Valid() && (bpm.world, hdr) == StoreRecord(old(bpm.world), fd, old(hdr), rid, buf)
    {
      hide CountersOk, WrittenOk, Ordered, FreeOk, TableOk, LruOk, FileInv, SizesOk, FileOf, Step;
      var num := Decode32(Range(page, NUM_OFF, 4));
      var p := PutSlot(hdr, page, rid.slotNo, buf);
      p := SetBit(hdr, p, rid.slotNo, true);
      p := SetNum(p, num + 1);
      assert p == InsertBytes(hdr, page, rid.slotNo, buf);
      hide InsertBytes, PutSlot, SetBit, SetNum, WorldInv, FileInv, HdrOk, Step;
      bpm.WriteFrame(PageId(fd, rid.pageNo), f, p);
      if num + 1 >= hdr.perPage {
        hdr := hdr.(firstFree := Decode32(Range(page, NEXT_OFF, 4)));
      }
    }

    /** insert_record. */
    method InsertRecord(buf: Bytes) returns (rid: Rid)
      requires Valid() && |buf| == hdr.recordSize && CanOpen(bpm.world, fd, hdr)
      modifies this`hdr, bpm, bpm.pages, bpm.replacer, bpm.disk
      ensures Valid() && (bpm.world, hdr) == InsertAnywhere(old(bpm.world), fd, old(hdr), buf)
      ensures rid == InsertRid(old(Contents())) && Contents() == Insert(old(Contents()), buf)
    {
      hide WorldInv, SizesOk, FileInv, HdrOk, CanOpen, Open, StoreRecord, Logical, InsertAnywhere;
      hide FileOf, Insert, InsertRid, Pinned, RidOk, Inv;
      ghost var w, h := bpm.world, hdr;
      InsertParts(w, fd, h, buf);
      var f, page := CreatePageHandle();
      var slot := NextBitOf(hdr, page, false, -1);
      rid := Rid(hdr.firstFree, slot);
      PutIntoPage(f, page, rid, buf);
    }

    // For the operations below, an invalid page number is the PageNotExistError; any other position must
    // lie in the file, and the pool must have a frame for its page.

    ghost predicate Reachable(rid: Rid)
      requires Valid()
      reads this, bpm, bpm.pages, bpm.replacer, bpm.disk
    {
      rid.pageNo == INVALID_PAGE_ID || (RidOk(hdr, rid) && CanFetch(bpm.world, fd, rid.pageNo))
    }

    /** get_record. */
    method GetRecord(rid: Rid) returns (r: Option<Bytes>)
      requires Valid() && Reachable(rid)
      modifies bpm, bpm.pages, bpm.replacer, bpm.disk`pages
      ensures Valid() && Contents() == old(Contents()) && (r == None <==> rid.pageNo == INVALID_PAGE_ID)
      ensures r.Some? ==> InFile(Contents(), rid) && r.value == Contents().pages[rid.pageNo].slots[rid.slotNo]
      ensures r.Some? && Lookup(Contents(), rid).Some? ==> r == Lookup(Contents(), rid)
    {
      hide CountersOk, WrittenOk, Ordered, FreeOk, TableOk, LruOk, FileInv, HdrOk, Logical, Fetch, Step, SizesOk, FileOf;
      if rid.pageNo == INVALID_PAGE_ID { return None; }
      var f, page := FetchPageHandle(rid.pageNo);
      PageFacts(bpm.world, fd, hdr, rid.pageNo);
      return Some(Slot(hdr, page, rid.slotNo));
    }

    /** is_record. */
    method IsRecord(rid: Rid) returns (r: Option<bool>)
      requires Valid() && Reachable(rid)
      modifies bpm, bpm.pages, bpm.replacer, bpm.disk`pages
      ensures Valid() && Contents() == old(Contents()) && (r == None <==> rid.pageNo == INVALID_PAGE_ID)
      ensures r.Some? ==> r.value == Lookup(Contents(), rid).Some?
    {
      hide CountersOk, WrittenOk, Ordered, FreeOk, TableOk, LruOk, FileInv, HdrOk, Logical, Fetch, Step, SizesOk, FileOf;
      if rid.pageNo == INVALID_PAGE_ID { return None; }
      var f, page := FetchPageHandle(rid.pageNo);
      PageFacts(bpm.world, fd, hdr, rid.pageNo);
      SlotFits(hdr, rid.slotNo);
      return Some(BitAt(page, rid.slotNo));
    }

    /** insert_record at a position: sound exactly when `CanPut` holds. */
    method InsertRecordAt(rid: Rid, buf: Bytes) returns (ok: bool)
      requires Valid() && Reachable(rid) && |buf| == hdr.recordSize
      modifies this`hdr, bpm, bpm.pages, bpm.replacer, bpm.disk`pages
      ensures bpm.Valid() && ok == (rid.pageNo != INVALID_PAGE_ID)
      ensures !ok ==> Valid() && Contents() == old(Contents())
      ensures ok ==> (bpm.world, hdr) == InsertAt(old(bpm.world), fd, old(hdr), rid, buf)
      ensures ok ==> SizesOk(bpm.world.pool, fd, hdr) && InFile(old(Contents()), rid)
      ensures ok ==> FileOf(bpm.world.pool, fd, hdr) == PutRecord(old(Contents()), rid, buf)
      ensures ok ==> (Valid() <==> CanPut(old(Contents()), rid))
    {
      if rid.pageNo == INVALID_PAGE_ID { return false; }
      hide WorldInv, SizesOk, FileInv, HdrOk, StoreRecord, Logical, FileOf, PutRecord, CanPut, InFile, Pinned, Inv, Step, Fetch;
      ghost var w, h := bpm.world, hdr;
      FetchEffect(w, fd, h, rid.pageNo);
      InsertAtEffect(w, fd, h, rid, buf);
      var f, page := FetchPageHandle(rid.pageNo);
      PutIntoPage(f, page, rid, buf);
      return true;
    }

    /** delete_record: sound exactly when the slot holds a record. */
    method DeleteRecord(rid: Rid) returns (ok: bool)
      requires Valid() && Reachable(rid)
      modifies this`hdr, bpm, bpm.pages, bpm.replacer, bpm.disk`pages
      ensures bpm.Valid() && ok == (rid.pageNo != INVALID_PAGE_ID)
      ensures !ok ==> Valid() && Contents() == old(Contents())
      ensures ok ==> (bpm.world, hdr) == Remove(old(bpm.world), fd, old(hdr), rid)
      ensures ok ==> SizesOk(bpm.world.pool, fd, hdr) && InFile(old(Contents()), rid)
      ensures ok ==> FileOf(bpm.world.pool, fd, hdr) == RecordFile.DeleteRecord(old(Contents()), rid)
      ensures ok ==> (Valid() <==> Lookup(old(Contents()), rid).Some?)
    {
      if rid.pageNo == INVALID_PAGE_ID { return false; }
      ghost var w, h := bpm.world, hdr;
      FetchEffect(w, fd, h, rid.pageNo);
      RemoveEffect(w, fd, h, rid);
      hide WorldInv, SizesOk, FileInv, HdrOk, Logical, FileOf, RecordFile.DeleteRecord, InFile, Lookup, Pinned, Inv, Step, Fetch;
      var f, page := FetchPageHandle(rid.pageNo);
      RemoveFromPage(f, page, rid);
      return true;
    }

    /** Clear the bit, link a page that was full in front of the list, and count down. */
    method RemoveFromPage(f: int, page: Bytes, rid: Rid)
      requires Valid() && HoldsPage(f, rid.pageNo, page) && RidOk(hdr, rid)
      modifies this`hdr, bpm`world, bpm.pages
      ensures bpm.Valid()
      ensures bpm.world == Step(old(bpm.world), WriteOp(PageId(fd, rid.pageNo), DeleteBytes(old(hdr), page, rid.slotNo)))
      ensures hdr == if View(old(hdr), page).num == old(hdr).perPage then old(hdr).(firstFree := rid.pageNo) else old(hdr)
    {
      hide CountersOk, WrittenOk, Ordered, FreeOk, TableOk, LruOk, FileInv, SizesOk, FileOf, Step, Decode32, Encode32, Splice, WithBit;
      ghost var h := hdr;
      var num := Decode32(Range(page, NUM_OFF, 4));
      var p := SetBit(hdr, page, rid.slotNo, false);
      if num == hdr.perPage {
        p := SetNext(p, hdr.firstFree);
        hdr := hdr.(firstFree := rid.pageNo);
      }
      p := SetNum(p, num - 1);
      assert p == DeleteBytes(h, page, rid.slotNo);
      hide DeleteBytes, SetBit, SetNum, SetNext, WorldInv, FileInv, HdrOk, Step;
      bpm.WriteFrame(PageId(fd, rid.pageNo), f, p);
    }

    /** update_record. */
    method UpdateRecord(rid: Rid, buf: Bytes) returns (ok: bool)
      requires Valid() && Reachable(rid) && |buf| == hdr.recordSize
      modifies bpm, bpm.pages, bpm.replacer, bpm.disk`pages
      ensures Valid() && ok == (rid.pageNo != INVALID_PAGE_ID)
      ensures !ok ==> Contents() == old(Contents())
      ensures ok ==> InFile(old(Contents()), rid) && Contents() == RecordFile.UpdateRecord(old(Contents()), rid, buf)
    {
      hide CountersOk, WrittenOk, Ordered, FreeOk, TableOk, LruOk, SizesOk, FileInv, HdrOk, Logical, FileOf, Step, Fetch, PutSlot;
      hide RecordFile.UpdateRecord, Pinned;
      if rid.pageNo == INVALID_PAGE_ID { return false; }
      ghost var w, h := bpm.world, hdr;
      FetchEffect(w, fd, h, rid.pageNo);
      PageFacts(w, fd, h, rid.pageNo);
      UpdateEffect(w, fd, h, rid, buf);
      var f, page := FetchPageHandle(rid.pageNo);
      bpm.WriteFrame(PageId(fd, rid.pageNo), f, PutSlot(hdr, page, rid.slotNo, buf));
      return true;
    }
  }

  /** insert_record is create_page_handle followed by a put at the first clear slot. */
  lemma InsertParts(w: World, fd: int, h: FileHdr, buf: Bytes)
    requires StoreInv(w, fd, h) && CanOpen(w, fd, h) && |buf| == h.recordSize
    ensures var (u, g) := Open(w, fd, h); var rid := InsertRid(FileOf(w.pool, fd, h)); var pid := PageId(fd, g.firstFree);
            && StoreInv(u, fd, g) && IsPage(g, Logical(u.pool, pid)) && g.recordSize == h.recordSize && g.perPage >= 1
            && rid == Rid(g.firstFree, NextBit(false, Bits(g, Logical(u.pool, pid)), -1)) && RidOk(g, rid) && Pinned(u.pool, pid)
            && InsertAnywhere(w, fd, h, buf) == StoreRecord(u, fd, g, rid, buf)
    ensures var (w', g) := InsertAnywhere(w, fd, h, buf);
            StoreInv(w', fd, g) && FileOf(w'.pool, fd, g) == Insert(FileOf(w.pool, fd, h), buf)
  {
    InsertEffect(w, fd, h, buf);
    OpenEffect(w, fd, h);
    var (u, g) := Open(w, fd, h);
    hide WorldInv, FileInv, HdrOk, CanOpen, Open, StoreRecord, Logical;
    FileInvFacts(FileOf(u.pool, fd, g));
    WithRoomHead(FileOf(w.pool, fd, h));
    PageFacts(u, fd, g, g.firstFree);
  }

  // ----- RmManager -----

  /** The header create_file writes; a record size out of range is the InvalidRecordSizeError. */
  function NewHdr(recordSize: int): Option<FileHdr> {
    if recordSize < 1 || recordSize > RM_MAX_RECORD_SIZE then None else
    var n := Capacity(PAGE_SIZE, FILE_HDR_SIZE, recordSize);
    Some(FileHdr(recordSize, 1, n, RM_NO_PAGE, BitmapSize(n)))
  }

  /** A file just created and opened is a store without records. */
  lemma CreatedEmpty(s: Pool, disk: map<PageId, Bytes>, fd: int, recordSize: int)
    requires NewHdr(recordSize).Some? && JustOpened(s, disk, fd, NewHdr(recordSize).value)
    ensures var h := NewHdr(recordSize).value; StoreInv(World(s, {}, 0, map[], multiset{}), fd, h) && Holds(FileOf(s, fd, h), map[])
  {
    var h := NewHdr(recordSize).value;
    FreshWorld(s);
    HdrFits(h);
    assert FreeChain(FileOf(s, fd, h), []);
  }

  /** write_page of a prefix of a page. */
  method WritePrefix(disk: DiskManager, p: PageId, part: Bytes)
    modifies disk`pages
    ensures var prev := old(DiskRead(disk.pages, p));
            disk.pages == old(disk.pages)[p := part + if |prev| > |part| then prev[|part|..] else []]
  {
    var prev := disk.ReadPage(p);
    disk.WritePage(p, part + if |prev| > |part| then prev[|part|..] else []);
  }

  method CreateFile(disk: DiskManager, fd: int, recordSize: int) returns (ok: bool)
    modifies disk`pages
    ensures ok <==> 1 <= recordSize <= RM_MAX_RECORD_SIZE
    ensures !ok ==> disk.pages == old(disk.pages)
    ensures ok ==> var page := DiskRead(disk.pages, PageId(fd, 0));
                   |page| >= FILE_HDR_SIZE && Some(DecodeHdr(page)) == NewHdr(recordSize)
    ensures ok ==> var page := DiskRead(disk.pages, PageId(fd, 0));
                   && NumberAt(page, 0) == recordSize && NumberAt(page, 4) == 1 && NumberAt(page, 12) == RM_NO_PAGE
                   && IsQuotient(8 * (PAGE_SIZE - 1 - 20) + 1, 1 + 8 * recordSize, NumberAt(page, 8))
                   && NumberAt(page, 8) <= 8 * NumberAt(page, 16) < NumberAt(page, 8) + 8
  {
    if recordSize < 1 || recordSize > RM_MAX_RECORD_SIZE { return false; }
    var n := Capacity(PAGE_SIZE, FILE_HDR_SIZE, recordSize);
    var h := FileHdr(recordSize, 1, n, RM_NO_PAGE, BitmapSize(n));
    ghost var prev := DiskRead(disk.pages, PageId(fd, 0));
    SmallPage(h);
    HdrRoundTrip(h, if |prev| > FILE_HDR_SIZE then prev[FILE_HDR_SIZE..] else []);
    CapacityIs(PAGE_SIZE, FILE_HDR_SIZE, recordSize);
    hide EncodeHdr, DecodeHdr, Capacity, IsQuotient, NumberAt;
    WritePrefix(disk, PageId(fd, 0), EncodeHdr(h));
    return true;
  }

  /** close_file: the header past the pool, then every cached page of the file. */
  method CloseFile(file: RmFileHandle)
    requires file.Valid()
    modifies file.bpm`world, file.bpm.pages, file.bpm.disk`pages
    ensures file.bpm.Valid() && file.bpm.State() == RecordStore.CloseFile(old(file.bpm.State()), file.fd, file.hdr)
    ensures HdrAt(DiskRead(file.bpm.disk.pages, PageId(file.fd, 0)), file.hdr)
  {
    var bpm := file.bpm;
    CloseDisk(bpm.world, file.fd, file.hdr, 0);
    hide FreeOk, TableOk, LruOk, HdrAt, CountersOk, WrittenOk, Ordered, FileInv, FileOf, SizesOk, DecodeHdr, EncodeHdr, FlushAll;
    ghost var s := bpm.State();
    WritePrefix(bpm.disk, PageId(file.fd, 0), EncodeHdr(file.hdr));
    ghost var t := WriteHdr(s, file.fd, file.hdr);
    WriteHdrInv(s, file.fd, file.hdr);
    assert bpm.State() == t;
    bpm.world := bpm.world.(pool := t);
    bpm.FlushAllPages(file.fd);
  }

  lemma OneStepLater(w: World, fd: int, h: FileHdr)
    requires w.written == {} && w.released == map[] && StoreInv(World(w.pool, {}, 0, map[], multiset{}), fd, h)
    ensures StoreInv(w, fd, h)
  {
    hide FileInv, HdrOk, Inv, CountersOk;
  }

  /** open_file in a database just started. */
  method StartAndOpen(disk: DiskManager, fd: int, poolSize: nat) returns (file: RmFileHandle)
    requires forall x | x in disk.fd2pageno :: disk.fd2pageno[x] >= 0
    requires |DiskRead(disk.pages, PageId(fd, 0))| >= FILE_HDR_SIZE && DecodeHdr(DiskRead(disk.pages, PageId(fd, 0))).numPages >= 0
    modifies disk`fd2pageno
    ensures fresh(file) && fresh(file.bpm) && file.fd == fd && file.bpm.disk == disk && file.bpm.Valid()
    ensures file.hdr == DecodeHdr(DiskRead(disk.pages, PageId(fd, 0)))
    ensures file.bpm.world.written == {} && file.bpm.world.released == map[]
    ensures JustOpened(file.bpm.world.pool, disk.pages, fd, file.hdr)
  {
    hide Inv, DecodeHdr;
    var bpm := new BufferPoolManager(poolSize, disk);
    file := new RmFileHandle(bpm, fd);
  }

  /** Creating a file and opening it in a database just started gives a valid handle on no records. */
  method CreateThenOpen(disk: DiskManager, fd: int, recordSize: int, poolSize: nat) returns (file: RmFileHandle)
    requires 1 <= recordSize <= RM_MAX_RECORD_SIZE && forall x | x in disk.fd2pageno :: disk.fd2pageno[x] >= 0
    modifies disk
    ensures fresh(file) && fresh(file.bpm) && file.fd == fd && file.bpm.disk == disk
    ensures file.Valid() && file.hdr.recordSize == recordSize && Holds(file.Contents(), map[])
  {
    hide JustOpened, Holds, StoreInv, DecodeHdr;
    var _ := CreateFile(disk, fd, recordSize);
    file := StartAndOpen(disk, fd, poolSize);
    CreatedEmpty(file.bpm.world.pool, disk.pages, fd, recordSize);
    OneStepLater(file.bpm.world, fd, file.hdr);
  }

  /** Closing a file and opening it in a database just started gives a valid handle on the same contents. */
  method CloseThenReopen(file: RmFileHandle, poolSize: nat) returns (again: RmFileHandle)
    requires file.Valid()
    modifies file.bpm`world, file.bpm.pages, file.bpm.disk
    ensures fresh(again) && fresh(again.bpm) && again.fd == file.fd && again.bpm.disk == file.bpm.disk
    ensures again.Valid() && again.hdr == file.hdr && again.Contents() == old(file.Contents())
  {
    ghost var w, h := file.bpm.world, file.hdr;
    var disk := file.bpm.disk;
    CloseDisk(w, file.fd, h, 0);
    StoreCounters(w, file.fd, h);
    hide JustOpened, StoreInv, DecodeHdr, RecordStore.CloseFile, FileOf, SizesOk;
    CloseFile(file);
    again := StartAndOpen(disk, file.fd, poolSize);
    CloseThenOpen(w, file.fd, h, again.bpm.world.pool);
    OneStepLater(again.bpm.world, file.fd, h);
  }

  lemma StoreCounters(w: World, fd: int, h: FileHdr)
    requires StoreInv(w, fd, h)
    ensures h.numPages >= 0 && forall x | x in w.pool.next :: w.pool.next[x] >= 0
  {
    hide FileInv, HdrOk, Inv, WrittenOk, Ordered;
    forall x | x in w.pool.next ensures w.pool.next[x] >= 0 { assert Next(w.pool, x) == w.pool.next[x]; }
  }
}
