/** The buffer pool manager and the disk manager's page map, updated in place. */
module BufferPool {
  import opened Lru
  import opened PoolState
  import opened PoolRuns

  class DiskManager {
    var pages: map<PageId, Bytes>
    var fd2pageno: map<int, int>

    constructor ()
      ensures pages == map[] && fd2pageno == map[]
    {
      pages, fd2pageno := map[], map[];
    }

    method WritePage(p: PageId, data: Bytes)
      modifies this`pages
      ensures pages == old(pages)[p := data]
    {
      pages := pages[p := data];
    }

    method ReadPage(p: PageId) returns (data: Bytes)
      ensures data == DiskRead(pages, p)
    {
      if p in pages { return pages[p]; }
      return ZeroPage();
    }

    method AllocatePage(fd: int) returns (pageNo: int)
      modifies this`fd2pageno
      ensures pageNo == (if fd in old(fd2pageno) then old(fd2pageno)[fd] else 0) && fd2pageno == old(fd2pageno)[fd := pageNo + 1]
    {
      pageNo := if fd in fd2pageno then fd2pageno[fd] else 0;
      fd2pageno := fd2pageno[fd := pageNo + 1];
    }
  }

  class BufferPoolManager {
    const pages: array<Frame>
    var pageTable: map<PageId, int>
    var freeList: seq<int>
    const replacer: LruReplacer
    const disk: DiskManager

    // The run so far: the state below and the history the run lemmas refer to.
    ghost var world: World

    ghost function State(): Pool
      reads this, pages, replacer, disk
    {
      Pool(pages[..], pageTable, freeList, replacer.Frames(), disk.pages, disk.fd2pageno)
    }

    ghost predicate Valid()
      reads this, pages, replacer, disk
    {
      replacer.Valid() && Inv(State()) && world.pool == State()
    }

    constructor (poolSize: nat, disk: DiskManager)
      requires forall fd | fd in disk.fd2pageno :: disk.fd2pageno[fd] >= 0
      ensures Valid() && Fresh(State()) && |State().frames| == poolSize && this.disk == disk
      ensures fresh(pages) && fresh(replacer) && world == World(State(), {}, 0, map[], multiset{})
    {
      this.disk := disk;
      replacer := new LruReplacer();
      pages := new Frame[poolSize](_ => Frame(PageId(0, INVALID_PAGE_ID), ZeroPage(), false, 0));
      pageTable := map[];
      freeList := seq(poolSize, i => i);
      new;
      FreshWorld(State());
      world := World(State(), {}, 0, map[], multiset{});
    }

    /** find_victim_page. */
    method FindVictimPage() returns (ok: bool, f: int)
      requires Valid()
      modifies this`freeList, replacer
      ensures replacer.Valid() && State() == TakeVictim(old(State()))
      ensures ok <==> VictimOf(old(State())).Some?
      ensures ok ==> VictimOf(old(State())) == Some(f)
    {
      if freeList != [] {
        f := freeList[0];
        freeList := freeList[1..];
        return true, f;
      }
      ok, f := replacer.Victim();
      ghost var before := old(replacer.Frames());
      assert ok ==> before[..|before| - 1] == replacer.Frames() && before[|before| - 1] == f;
    }

    /** update_page. */
    method UpdatePage(f: int, p: PageId)
      requires IsFrame(State(), f)
      modifies this`pageTable, pages, disk`pages
      ensures State() == PoolState.UpdatePage(old(State()), f, p)
    {
      ghost var s := State();
      if pages[f].dirty {
        disk.WritePage(pages[f].id, pages[f].data);
        pages[f] := pages[f].(dirty := false);
      }
      pages[f] := pages[f].(pin := 0);
      pageTable := pageTable - {pages[f].id};
      pageTable := pageTable[p := f];
      pages[f] := pages[f].(data := ZeroPage());
      pages[f] := pages[f].(id := p);
      pages[f] := pages[f].(dirty := false, pin := 0);
      assert pages[..] == s.frames[f := Frame(p, ZeroPage(), false, 0)];
    }

    method PinFrame(f: int)
      requires replacer.Valid() && IsFrame(State(), f)
      modifies pages, replacer
      ensures replacer.Valid() && State() == PoolState.PinFrame(old(State()), f)
    {
      replacer.Pin(f);
      pages[f] := pages[f].(pin := pages[f].pin + 1);
      assert pages[..] == old(pages[..])[f := pages[f]];
    }

    /** fetch_page; null is the failure. */
    method FetchPage(p: PageId) returns (r: Option<int>)
      requires Valid() && p.pageNo != INVALID_PAGE_ID
      modifies this, pages, replacer, disk`pages
      ensures Valid() && (r, State()) == Fetch(old(State()), p) && world == Step(old(world), FetchOp(p))
      ensures r.Some? ==> Pins(State(), p) == Pins(old(State()), p) + 1
    {
      if Fetch(State(), p).0.Some? { FetchAddsUser(State(), p); }
      hide Fetch, Pins, OthersKept;
      r := FetchFrame(p);
      world := Step(world, FetchOp(p));
    }

    method FetchFrame(p: PageId) returns (r: Option<int>)
      requires Valid() && p.pageNo != INVALID_PAGE_ID
      modifies this`pageTable, this`freeList, pages, replacer, disk`pages
      ensures replacer.Valid() && Inv(State()) && (r, State()) == Fetch(old(State()), p)
    {
      hide FreeOk, TableOk, LruOk, SameLogical, CleanOk, VictimSafe, VictimOf, TakeVictim, PoolState.UpdatePage, PoolState.PinFrame, Load;
      FetchKeeps(State(), p);
      if p in pageTable {
        Resident(State(), p);
        var f := pageTable[p];
        PinFrame(f);
        return Some(f);
      }
      if VictimOf(State()).Some? { VictimIdle(State()); } else { NoVictim(State()); }
      var ok, f := FindVictimPage();
      if !ok { return None; }
      UpdatePage(f, p);
      LoadFrame(f, p);
      PinFrame(f);
      return Some(f);
    }

    /** Read a page from disk into a frame. */
    method LoadFrame(f: int, p: PageId)
      requires IsFrame(State(), f)
      modifies pages
      ensures State() == Load(old(State()), f, p)
    {
      var data := disk.ReadPage(p);
      pages[f] := pages[f].(data := data);
      assert pages[..] == old(pages[..])[f := pages[f]];
    }

    /** unpin_page. */
    method UnpinPage(p: PageId, dirty: bool) returns (ok: bool)
      requires Valid()
      modifies this`world, pages, replacer
      ensures Valid() && (ok, State()) == Unpin(old(State()), p, dirty) && world == Step(old(world), UnpinOp(p, dirty))
      ensures Pins(State(), p) == Pins(old(State()), p) - if ok then 1 else 0
    {
      UnpinTakesUser(State(), p, dirty);
      hide Unpin, Pins, OthersKept;
      ok := ReleaseFrame(p, dirty);
      world := Step(world, UnpinOp(p, dirty));
    }

    method ReleaseFrame(p: PageId, dirty: bool) returns (ok: bool)
      requires Valid()
      modifies pages, replacer
      ensures replacer.Valid() && Inv(State()) && (ok, State()) == Unpin(old(State()), p, dirty)
    {
      hide FreeOk, TableOk, LruOk, SameLogical, SameCounters, WithFront;
      UnpinKeeps(State(), p, dirty);
      if p !in pageTable { return false; }
      Resident(State(), p);
      var f := pageTable[p];
      if pages[f].pin <= 0 { return false; }
      pages[f] := pages[f].(pin := pages[f].pin - 1);
      if pages[f].pin == 0 { replacer.Unpin(f); }
      if dirty { pages[f] := pages[f].(dirty := true); }
      assert pages[..] == old(pages[..])[f := pages[f]];
      return true;
    }

    /** flush_page. */
    method FlushPage(p: PageId) returns (ok: bool)
      requires Valid()
      modifies this`world, pages, disk`pages
      ensures Valid() && (ok, State()) == Flush(old(State()), p) && world == Step(old(world), FlushOp(p))
    {
      ghost var s, w := State(), world;
      world := Step(w, FlushOp(p));
      if p !in pageTable { return false; }
      var f := pageTable[p];
      FlushFrameKeeps(s, f);
      disk.WritePage(p, pages[f].data);
      pages[f] := pages[f].(dirty := false);
      assert pages[..] == s.frames[f := pages[f]];
      return true;
    }

    /** new_page. */
    method NewPage(fd: int) returns (r: Option<(PageId, int)>)
      requires Valid()
      modifies this, pages, replacer, disk
      ensures (r, State()) == PoolState.NewPage(old(State()), fd) && world == Step(old(world), NewOp(fd))
      ensures replacer.Valid() && (CountersOk(old(State())) ==> Valid())
    {
      if CountersOk(State()) { NewPageKeeps(State(), fd); }
      r := TakeNewPage(fd);
      world := Step(world, NewOp(fd));
    }

    method TakeNewPage(fd: int) returns (r: Option<(PageId, int)>)
      requires Valid()
      modifies this`pageTable, this`freeList, pages, replacer, disk
      ensures (r, State()) == PoolState.NewPage(old(State()), fd) && replacer.Valid()
    {
      ghost var s := State();
      if VictimOf(s).Some? { VictimIdle(s); }
      hide Inv, VictimOf, TakeVictim, PoolState.UpdatePage, PoolState.PinFrame, LruReplacer.Valid, LruReplacer.Frames;
      var ok, f := FindVictimPage();
      if !ok { return None; }
      var pageNo := disk.AllocatePage(fd);
      assert State() == TakeVictim(s).(next := s.next[fd := Next(s, fd) + 1]);
      UpdatePage(f, PageId(fd, pageNo));
      PinFrame(f);
      return Some((PageId(fd, pageNo), f));
    }

    /** delete_page. */
    method DeletePage(p: PageId) returns (ok: bool)
      requires Valid()
      modifies this, pages, disk`pages
      ensures Valid() && (ok, State()) == Delete(old(State()), p) && world == Step(old(world), DeleteOp(p))
    {
      DeleteInv(State(), p);
      world := Step(world, DeleteOp(p));
      if p !in pageTable { return true; }
      var f := pageTable[p];
      if pages[f].pin != 0 { return false; }
      disk.WritePage(pages[f].id, pages[f].data);
      pageTable := pageTable - {p};
      pages[f] := Frame(pages[f].id.(pageNo := INVALID_PAGE_ID), ZeroPage(), false, 0);
      freeList := freeList + [f];
      assert pages[..] == old(pages[..])[f := pages[f]];
      return true;
    }

    /** flush_all_pages. */
    method FlushAllPages(fd: int)
      requires Valid()
      modifies this`world, pages, disk`pages
      ensures Valid() && State() == FlushAll(old(State()), fd, pages.Length) && world == Step(old(world), FlushAllOp(fd))
    {
      FlushFrames(fd);
      world := Step(world, FlushAllOp(fd));
    }

    method FlushFrames(fd: int)
      requires Valid()
      modifies pages, disk`pages
      ensures replacer.Valid() && Inv(State()) && State() == FlushAll(old(State()), fd, pages.Length)
    {
      ghost var s := State();
      for i := 0 to pages.Length
        invariant replacer.Valid() && State() == FlushAll(s, fd, i)
      {
        ghost var t := State();
        if pages[i].id.fd == fd && pages[i].id.pageNo != INVALID_PAGE_ID {
          disk.WritePage(PageId(fd, pages[i].id.pageNo), pages[i].data);
          pages[i] := pages[i].(dirty := false);
          assert pages[..] == t.frames[i := pages[i]];
        }
      }
      FlushAllKeeps(s, fd, pages.Length);
    }

    /** mark_dirty, on a page a client holds. */
    method MarkDirty(p: PageId, f: int)
      requires Valid() && p in pageTable && pageTable[p] == f && pages[f].pin > 0
      modifies this`world, pages
      ensures Valid() && State() == Mark(old(State()), p) && world == Step(old(world), MarkOp(p))
    {
      hide FreeOk, LruOk, TableOk, SameLogical, SameCounters, CleanOk;
      ghost var s := State();
      Resident(s, p);
      MarkKeeps(s, p);
      world := Step(world, MarkOp(p));
      pages[f] := pages[f].(dirty := true);
      assert pages[..] == s.frames[f := pages[f]];
    }

    /** A client writes to the bytes of a page it holds. */
    method WriteFrame(p: PageId, f: int, data: Bytes)
      requires Valid() && p in pageTable && pageTable[p] == f && pages[f].pin > 0
      modifies this`world, pages
      ensures Valid() && State() == Write(old(State()), p, data) && world == Step(old(world), WriteOp(p, data))
    {
      hide FreeOk, LruOk, TableOk, SameCounters, CleanOk;
      ghost var s := State();
      Resident(s, p);
      WriteKeeps(s, p, data);
      world := Step(world, WriteOp(p, data));
      pages[f] := pages[f].(data := data);
      assert pages[..] == s.frames[f := pages[f]];
    }
  }
}
