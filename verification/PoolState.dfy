/**
 The buffer pool as a value: what each operation does to the frames, the page table, the free list,
 the replacer's list and the disk, and what every reachable state keeps.
 */
module PoolState {
  import opened Defs
  import opened Lru

  const PAGE_SIZE := 4096
  const INVALID_PAGE_ID := -1

  type Byte = b: int | 0 <= b < 256
  type Bytes = seq<Byte>

  datatype Option<T> = None | Some(value: T)

  datatype PageId = PageId(fd: int, pageNo: int)

  datatype Frame = Frame(id: PageId, data: Bytes, dirty: bool, pin: int)

  /** `disk` and `next` are the disk manager's pages and its allocation counter per file. */
  datatype Pool = Pool(frames: seq<Frame>, table: map<PageId, int>, free: seq<int>, lru: seq<int>,
                       disk: map<PageId, Bytes>, next: map<int, int>)

  function ZeroPage(): (b: Bytes)
    ensures |b| == PAGE_SIZE
  {
    seq(PAGE_SIZE, _ => 0)
  }

  /** A page never written reads as zeros. */
  function DiskRead(disk: map<PageId, Bytes>, p: PageId): Bytes {
    if p in disk then disk[p] else ZeroPage()
  }

  function Next(s: Pool, fd: int): int {
    if fd in s.next then s.next[fd] else 0
  }

  // ----- Operations -----

  /** find_victim_page: the free list first, then the replacer. */
  function VictimOf(s: Pool): (r: Option<int>)
    ensures r.Some? ==> r.value in s.free || r.value in s.lru
  {
    if s.free != [] then Some(s.free[0])
    else if s.lru != [] then Some(s.lru[|s.lru| - 1])
    else None
  }

  function TakeVictim(s: Pool): Pool {
    if s.free != [] then s.(free := s.free[1..])
    else if s.lru != [] then s.(lru := s.lru[..|s.lru| - 1])
    else s
  }

  predicate IsFrame(s: Pool, f: int) {
    0 <= f < |s.frames|
  }

  /** update_page: write the old page back if dirty, and give the frame to another page. */
  function UpdatePage(s: Pool, f: int, p: PageId): Pool
    requires IsFrame(s, f)
  {
    var prev := s.frames[f];
    s.(disk := if prev.dirty then s.disk[prev.id := prev.data] else s.disk,
       table := (s.table - {prev.id})[p := f],
       frames := s.frames[f := Frame(p, ZeroPage(), false, 0)])
  }

  /** Pin a frame: out of the replacer, one more user. */
  function PinFrame(s: Pool, f: int): Pool
    requires IsFrame(s, f)
  {
    s.(lru := Without(s.lru, f), frames := s.frames[f := s.frames[f].(pin := s.frames[f].pin + 1)])
  }

  function Load(s: Pool, f: int, p: PageId): Pool
    requires IsFrame(s, f)
  {
    s.(frames := s.frames[f := s.frames[f].(data := DiskRead(s.disk, p))])
  }

  function Fetch(s: Pool, p: PageId): (Option<int>, Pool)
    requires Inv(s)
  {
    if p in s.table then (Some(s.table[p]), PinFrame(s, s.table[p]))
    else match VictimOf(s)
      case None => (None, s)
      case Some(f) => (Some(f), PinFrame(Load(UpdatePage(TakeVictim(s), f, p), f, p), f))
  }

  function Unpin(s: Pool, p: PageId, dirty: bool): (bool, Pool)
    requires Inv(s)
  {
    if p !in s.table then (false, s) else
    var f := s.table[p];
    var frame := s.frames[f];
    if frame.pin <= 0 then (false, s) else
    (true, s.(frames := s.frames[f := frame.(pin := frame.pin - 1, dirty := frame.dirty || dirty)],
              lru := if frame.pin == 1 then WithFront(s.lru, f) else s.lru))
  }

  function Flush(s: Pool, p: PageId): (bool, Pool)
    requires Inv(s)
  {
    if p !in s.table then (false, s) else (true, FlushFrame(s, s.table[p]))
  }

  function FlushFrame(s: Pool, f: int): Pool
    requires IsFrame(s, f)
  {
    var frame := s.frames[f];
    s.(disk := s.disk[frame.id := frame.data], frames := s.frames[f := frame.(dirty := false)])
  }

  function NewPage(s: Pool, fd: int): (Option<(PageId, int)>, Pool)
    requires Inv(s)
  {
    match VictimOf(s)
    case None => (None, s)
    case Some(f) =>
      var p := PageId(fd, Next(s, fd));
      (Some((p, f)), PinFrame(UpdatePage(TakeVictim(s).(next := s.next[fd := Next(s, fd) + 1]), f, p), f))
  }

  /** delete_page puts the frame on the free list but leaves it in the replacer. */
  function Delete(s: Pool, p: PageId): (bool, Pool)
    requires Inv(s)
  {
    if p !in s.table then (true, s) else
    var f := s.table[p];
    if s.frames[f].pin != 0 then (false, s) else
    (true, s.(disk := s.disk[p := s.frames[f].data],
              table := s.table - {p},
              frames := s.frames[f := Frame(p.(pageNo := INVALID_PAGE_ID), ZeroPage(), false, 0)],
              free := s.free + [f]))
  }

  predicate ToFlush(frame: Frame, fd: int) {
    frame.id.fd == fd && frame.id.pageNo != INVALID_PAGE_ID
  }

  /** flush_all_pages, the first `n` frames. */
  function FlushAll(s: Pool, fd: int, n: nat): (r: Pool)
    requires n <= |s.frames|
    ensures |r.frames| == |s.frames|
  {
    if n == 0 then s else
    var t := FlushAll(s, fd, n - 1);
    if ToFlush(t.frames[n - 1], fd) then FlushFrame(t, n - 1) else t
  }

  /** A client overwrites the bytes of a page it has pinned. */
  function Write(s: Pool, p: PageId, data: Bytes): Pool
    requires Inv(s) && p in s.table
  {
    var f := s.table[p];
    s.(frames := s.frames[f := s.frames[f].(data := data)])
  }

  /** mark_dirty, on the frame of a page. */
  function Mark(s: Pool, p: PageId): Pool
    requires Inv(s)
  {
    if p !in s.table then s else s.(frames := s.frames[s.table[p] := s.frames[s.table[p]].(dirty := true)])
  }

  // ----- What every state keeps -----

  ghost predicate FreeOk(s: Pool) {
    && NoDuplicates(s.free)
    && forall f | f in s.free :: IsFrame(s, f) && s.frames[f].id.pageNo == INVALID_PAGE_ID && !s.frames[f].dirty && s.frames[f].pin == 0
  }

  ghost predicate TableOk(s: Pool) {
    && (forall p | p in s.table :: p.pageNo != INVALID_PAGE_ID && IsFrame(s, s.table[p]) && s.frames[s.table[p]].id == p)
    && (forall f | 0 <= f < |s.frames| && f !in s.free :: s.frames[f].id in s.table && s.table[s.frames[f].id] == f)
  }

  ghost predicate LruOk(s: Pool) {
    && NoDuplicates(s.lru)
    && (forall f | f in s.lru :: IsFrame(s, f))
    && (forall f | 0 <= f < |s.frames| :: s.frames[f].pin >= 0)
    && (forall f | 0 <= f < |s.frames| && f !in s.free :: f in s.lru <==> s.frames[f].pin == 0)
  }

  /**
   Each frame is on the free list once, or mapped by exactly the one page table entry for its id; a
   resident frame is evictable exactly when unpinned, and anything else in the replacer is free.
   */
  ghost predicate Inv(s: Pool) {
    FreeOk(s) && TableOk(s) && LruOk(s)
  }

  /** An unpinned page without the dirty bit has its bytes on disk. */
  ghost predicate CleanOk(s: Pool) {
    forall p | p in s.table && IsFrame(s, s.table[p]) && s.frames[s.table[p]].pin == 0 && !s.frames[s.table[p]].dirty ::
      s.frames[s.table[p]].data == DiskRead(s.disk, p)
  }

  /** The contents a client sees: the cached bytes if the page is resident, else the bytes on disk. */
  function Logical(s: Pool, p: PageId): Bytes {
    if p in s.table && IsFrame(s, s.table[p]) then s.frames[s.table[p]].data else DiskRead(s.disk, p)
  }

  ghost predicate SameLogical(s: Pool, t: Pool) {
    forall p :: Logical(s, p) == Logical(t, p)
  }

  /** Only frame `f` may differ. */
  ghost predicate OthersKept(s: Pool, t: Pool, f: int) {
    |t.frames| == |s.frames| && forall g | 0 <= g < |s.frames| && g != f :: t.frames[g] == s.frames[g]
  }

  lemma NoVictim(s: Pool)
    requires VictimOf(s) == None
    ensures TakeVictim(s) == s
  {
  }

  /** A resident page is in a frame of the pool. */
  lemma Resident(s: Pool, p: PageId)
    requires Inv(s) && p in s.table
    ensures IsFrame(s, s.table[p])
  {
  }

  // ----- Finding a frame -----

  /** A frame can be found unless every frame holds a pinned page. */
  lemma VictimUnlessAllPinned(s: Pool)
    requires Inv(s)
    ensures VictimOf(s) == None <==> forall f | 0 <= f < |s.frames| :: f !in s.free && s.frames[f].pin > 0
  {
    if VictimOf(s).Some? {
      VictimIdle(s);
      assert s.frames[VictimOf(s).value].pin == 0;
    }
  }

  /** As long as frames are free, they are taken in the order they were freed, and the replacer is left alone. */
  lemma FreeInOrder(s: Pool)
    requires s.free != []
    ensures VictimOf(s).Some? && s.free == [VictimOf(s).value] + TakeVictim(s).free && TakeVictim(s).lru == s.lru
  {
  }

  lemma VictimIdle(s: Pool)
    requires Inv(s) && VictimOf(s).Some?
    ensures var f := VictimOf(s).value;
            && IsFrame(s, f) && s.frames[f].pin == 0
            && (f in s.free ==> s.frames[f].id !in s.table && !s.frames[f].dirty)
            && (f !in s.free ==> s.free == [] && s.frames[f].id in s.table && s.table[s.frames[f].id] == f)
  {
    var f := VictimOf(s).value;
    if s.free != [] { assert f in s.free; } else { assert f in s.lru; }
  }

  /** The frame `f`, found by VictimOf, given to page `p` with these bytes and one user. */
  function Installed(s: Pool, f: int, p: PageId, data: Bytes): Pool
    requires IsFrame(s, f)
  {
    var prev, v := s.frames[f], TakeVictim(s);
    Pool(s.frames[f := Frame(p, data, false, 1)], (s.table - {prev.id})[p := f], v.free, Without(v.lru, f),
         if prev.dirty then s.disk[prev.id := prev.data] else s.disk, s.next)
  }

  lemma InstalledInv(s: Pool, p: PageId, data: Bytes)
    requires Inv(s) && VictimOf(s).Some? && p.pageNo != INVALID_PAGE_ID
    requires p !in s.table || s.table[p] == VictimOf(s).value
    requires IsFrame(s, VictimOf(s).value)
    ensures Inv(Installed(s, VictimOf(s).value, p, data))
  {
    VictimIdle(s);
    var f := VictimOf(s).value;
    var t := Installed(s, f, p, data);
    InstalledFree(s, f, p, data);
    InstalledLru(s, f, p, data);
    forall g | 0 <= g < |t.frames| && g !in t.free ensures t.frames[g].id in t.table && t.table[t.frames[g].id] == g {
      if g != f {
        assert s.frames[g].id in s.table && s.table[s.frames[g].id] == g;
      }
    }
    forall q | q in t.table ensures q.pageNo != INVALID_PAGE_ID && IsFrame(t, t.table[q]) && t.frames[t.table[q]].id == q {
    }
  }

  lemma InstalledFree(s: Pool, f: int, p: PageId, data: Bytes)
    requires Inv(s) && VictimOf(s) == Some(f) && IsFrame(s, f)
    ensures forall g :: g in Installed(s, f, p, data).free <==> g in s.free && g != f
    ensures FreeOk(Installed(s, f, p, data))
  {
    if s.free != [] {
      assert s.free == [f] + s.free[1..];
    }
  }

  lemma {:induction false} WithoutKeepsDistinct(list: seq<int>, f: int)
    requires NoDuplicates(list)
    ensures NoDuplicates(Without(list, f))
  {
    if i :| 0 <= i < |list| && list[i] == f { WithoutAt(list, i); } else { WithoutAbsent(list, f); }
  }

  lemma InstalledLru(s: Pool, f: int, p: PageId, data: Bytes)
    requires Inv(s) && VictimOf(s) == Some(f) && IsFrame(s, f)
    ensures LruOk(Installed(s, f, p, data))
  {
    InstalledFree(s, f, p, data);
    VictimLru(s, f);
  }

  lemma VictimLru(s: Pool, f: int)
    requires VictimOf(s) == Some(f) && NoDuplicates(s.lru)
    ensures var l := Without(TakeVictim(s).lru, f); NoDuplicates(l) && forall g :: g in l <==> g in s.lru && g != f
  {
    var l := TakeVictim(s).lru;
    WithoutKeepsDistinct(l, f);
    if s.free == [] { assert s.lru == l + [f]; }
  }

  lemma FetchMiss(s: Pool, p: PageId)
    requires Inv(s) && p !in s.table && VictimOf(s).Some? && p.pageNo != INVALID_PAGE_ID
    ensures IsFrame(s, VictimOf(s).value)
    ensures Fetch(s, p) == (VictimOf(s), Installed(s, VictimOf(s).value, p, Logical(s, p)))
  {
    VictimIdle(s);
    var f := VictimOf(s).value;
    var u := UpdatePage(TakeVictim(s), f, p);
    assert DiskRead(u.disk, p) == Logical(s, p);
    assert Fetch(s, p).1.frames == s.frames[f := Frame(p, Logical(s, p), false, 1)];
  }

  // ----- Eviction and the contents clients see -----

  /** The page to be evicted is on disk already, or will be written back. */
  predicate VictimSafe(s: Pool) {
    match VictimOf(s)
    case None => true
    case Some(f) =>
      f in s.free || (IsFrame(s, f) && (s.frames[f].dirty || s.frames[f].data == DiskRead(s.disk, s.frames[f].id)))
  }

  lemma CleanVictimSafe(s: Pool)
    requires Inv(s) && CleanOk(s)
    ensures VictimSafe(s)
  {
    if VictimOf(s).Some? { VictimIdle(s); }
  }

  /** Giving a frame to page `p` changes no other page's contents exactly when the victim is safe. */
  lemma InstalledLogical(s: Pool, p: PageId, data: Bytes)
    requires Inv(s) && VictimOf(s).Some? && p !in s.table && p.pageNo != INVALID_PAGE_ID
    requires IsFrame(s, VictimOf(s).value)
    ensures var t := Installed(s, VictimOf(s).value, p, data);
            Logical(t, p) == data && (VictimSafe(s) <==> forall q | q != p :: Logical(t, q) == Logical(s, q))
  {
    VictimIdle(s);
    var f := VictimOf(s).value;
    var t, victim := Installed(s, f, p, data), s.frames[f].id;
    forall q | q != p && (q != victim || f in s.free) ensures Logical(t, q) == Logical(s, q) {
      if q in s.table { assert s.table[q] != f; }
    }
    if f !in s.free {
      assert Logical(s, victim) == s.frames[f].data && Logical(t, victim) == DiskRead(t.disk, victim);
    }
  }

  lemma InstalledClean(s: Pool, p: PageId, data: Bytes)
    requires Inv(s) && CleanOk(s) && VictimOf(s).Some? && p !in s.table && p.pageNo != INVALID_PAGE_ID
    requires IsFrame(s, VictimOf(s).value)
    ensures CleanOk(Installed(s, VictimOf(s).value, p, data))
  {
    VictimIdle(s);
    var f := VictimOf(s).value;
    var t := Installed(s, f, p, data);
    forall q | q in t.table && t.frames[t.table[q]].pin == 0 && !t.frames[t.table[q]].dirty
      ensures t.frames[t.table[q]].data == DiskRead(t.disk, q)
    {
      assert q != p && q in s.table && q != s.frames[f].id && s.table[q] != f;
    }
  }

  // ----- fetch_page -----

  lemma FetchHit(s: Pool, p: PageId)
    requires Inv(s) && p in s.table
    ensures var t := Fetch(s, p).1; Inv(t) && SameLogical(s, t) && (CleanOk(s) ==> CleanOk(t))
  {
    WithoutKeepsDistinct(s.lru, s.table[p]);
    var t := Fetch(s, p).1;
    assert forall g | 0 <= g < |s.frames| :: t.frames[g].id == s.frames[g].id && t.frames[g].data == s.frames[g].data;
  }

  /** fetch_page keeps the pool consistent and, exactly when the victim is safe, all contents. */
  lemma FetchKeeps(s: Pool, p: PageId)
    requires Inv(s) && p.pageNo != INVALID_PAGE_ID
    ensures Inv(Fetch(s, p).1)
    ensures SameLogical(s, Fetch(s, p).1) <==> p in s.table || VictimSafe(s)
    ensures CleanOk(s) ==> CleanOk(Fetch(s, p).1)
  {
    if p in s.table {
      FetchHit(s, p);
    } else if VictimOf(s).Some? {
      FetchMiss(s, p);
      InstalledInv(s, p, Logical(s, p));
      InstalledLogical(s, p, Logical(s, p));
      if CleanOk(s) { InstalledClean(s, p, Logical(s, p)); }
      var t := Fetch(s, p).1;
      assert SameLogical(s, t) <==> forall q | q != p :: Logical(t, q) == Logical(s, q);
    }
  }

  /** How many users the pool counts for a page. */
  function Pins(s: Pool, p: PageId): int {
    if p in s.table && IsFrame(s, s.table[p]) then s.frames[s.table[p]].pin else 0
  }

  /** The frame returned holds the page's contents and is pinned; null exactly when every frame holds a pinned page. */
  lemma FetchReturns(s: Pool, p: PageId)
    requires Inv(s) && p.pageNo != INVALID_PAGE_ID
    ensures var (r, t) := Fetch(s, p);
            && (r == None <==> p !in s.table && forall f | 0 <= f < |s.frames| :: f !in s.free && s.frames[f].pin > 0)
            && (r == None ==> t == s)
            && (r.Some? ==> p in t.table && t.table[p] == r.value && IsFrame(t, r.value)
                            && t.frames[r.value].id == p && t.frames[r.value].data == Logical(s, p)
                            && t.frames[r.value].pin == Pins(s, p) + 1 > 0 && OthersKept(s, t, r.value))
  {
    VictimUnlessAllPinned(s);
    if p !in s.table && VictimOf(s).Some? { FetchMiss(s, p); }
  }

  /**
   A fetch adds one user to the page and to no other, and touches one frame: the page's own, with its dirty bit, or
   else one that was idle, clean now.
   */
  lemma FetchAddsUser(s: Pool, p: PageId)
    requires Inv(s) && p.pageNo != INVALID_PAGE_ID && Fetch(s, p).0.Some?
    ensures var (r, t) := Fetch(s, p);
            && IsFrame(t, r.value) && OthersKept(s, t, r.value)
            && t.frames[r.value].pin == Pins(s, p) + 1
            && (if p in s.table then r.value == s.table[p] && t.frames[r.value].dirty == s.frames[r.value].dirty
                else s.frames[r.value].pin == 0 && !t.frames[r.value].dirty)
            && forall q :: Pins(t, q) == Pins(s, q) + if q == p then 1 else 0
  {
    var (r, t) := Fetch(s, p);
    if p in s.table {
      assert forall q | q in s.table && q != p :: s.table[q] != s.table[p];
    } else {
      VictimIdle(s);
      FetchMiss(s, p);
      InstalledPins(s, p, Logical(s, p));
    }
  }

  /** Giving a frame to page `p` gives it one user and leaves the users of every other page. */
  lemma InstalledPins(s: Pool, p: PageId, data: Bytes)
    requires Inv(s) && VictimOf(s).Some? && p !in s.table && p.pageNo != INVALID_PAGE_ID
    requires IsFrame(s, VictimOf(s).value)
    ensures var t := Installed(s, VictimOf(s).value, p, data);
            OthersKept(s, t, VictimOf(s).value) && forall q :: Pins(t, q) == Pins(s, q) + if q == p then 1 else 0
  {
    VictimIdle(s);
    var f := VictimOf(s).value;
    var t := Installed(s, f, p, data);
    forall q ensures Pins(t, q) == Pins(s, q) + if q == p then 1 else 0 {
      if q in s.table && q != s.frames[f].id { assert t.table[q] == s.table[q] != f; }
    }
  }

  // ----- new_page -----

  lemma NewPageInstalls(s: Pool, fd: int)
    requires Inv(s) && VictimOf(s).Some?
    ensures IsFrame(s, VictimOf(s).value)
    ensures var p, f := PageId(fd, Next(s, fd)), VictimOf(s).value;
            NewPage(s, fd) == (Some((p, f)), Installed(s, f, p, ZeroPage()).(next := s.next[fd := Next(s, fd) + 1]))
  {
    VictimIdle(s);
    var p, f := PageId(fd, Next(s, fd)), VictimOf(s).value;
    assert NewPage(s, fd).1.frames == s.frames[f := Frame(p, ZeroPage(), false, 1)];
  }

  /** new_page breaks the page table exactly when the counter's page is still cached in another frame. */
  lemma NewPageInvIff(s: Pool, fd: int)
    requires Inv(s) && VictimOf(s).Some? && Next(s, fd) != INVALID_PAGE_ID
    ensures var p := PageId(fd, Next(s, fd));
            Inv(NewPage(s, fd).1) <==> p !in s.table || s.table[p] == VictimOf(s).value
  {
    NewPageInstalls(s, fd);
    var p, f := PageId(fd, Next(s, fd)), VictimOf(s).value;
    var t := Installed(s, f, p, ZeroPage());
    if p !in s.table || s.table[p] == f {
      InstalledInv(s, p, ZeroPage());
    } else {
      VictimIdle(s);
      var g := s.table[p];
      assert g !in s.free && t.frames[g].id == p && t.table[p] == f;
      assert !TableOk(NewPage(s, fd).1) by {
        InstalledFree(s, f, p, ZeroPage());
        assert g !in t.free;
      }
    }
  }

  /** The allocation counters exceed every cached page number of their file. */
  ghost predicate CountersOk(s: Pool) {
    && (forall fd :: Next(s, fd) >= 0)
    && forall p | p in s.table :: p.pageNo < Next(s, p.fd)
  }

  lemma NewPageKeeps(s: Pool, fd: int)
    requires Inv(s) && CountersOk(s)
    ensures var (r, t) := NewPage(s, fd);
            && Inv(t) && CountersOk(t) && (CleanOk(s) ==> CleanOk(t))
            && (r == None <==> forall f | 0 <= f < |s.frames| :: f !in s.free && s.frames[f].pin > 0)
            && (r == None ==> t == s)
  {
    VictimUnlessAllPinned(s);
    if VictimOf(s).Some? {
      var p := PageId(fd, Next(s, fd));
      assert p !in s.table;
      NewPageInstalls(s, fd);
      InstalledInv(s, p, ZeroPage());
      if CleanOk(s) { InstalledClean(s, p, ZeroPage()); }
      hide Inv, CleanOk, CountersOk;
      var u, next := Installed(s, VictimOf(s).value, p, ZeroPage()), s.next[fd := Next(s, fd) + 1];
      NextIrrelevant(u, next);
      NewCounters(s, fd, u);
    }
  }

  lemma NextIrrelevant(s: Pool, next: map<int, int>)
    ensures Inv(s.(next := next)) <==> Inv(s)
    ensures CleanOk(s.(next := next)) <==> CleanOk(s)
  {
  }

  lemma NewCounters(s: Pool, fd: int, u: Pool)
    requires CountersOk(s) && u.table.Keys <= s.table.Keys + {PageId(fd, Next(s, fd))}
    ensures CountersOk(u.(next := s.next[fd := Next(s, fd) + 1]))
  {
    var t := u.(next := s.next[fd := Next(s, fd) + 1]);
    forall x ensures Next(t, x) >= Next(s, x) { assert Next(s, x) >= 0; }
    forall q | q in t.table ensures q.pageNo < Next(t, q.fd) {
      assert q in u.table.Keys;
    }
  }

  lemma FewerPages(s: Pool, t: Pool)
    requires CountersOk(s) && t.next == s.next && t.table.Keys <= s.table.Keys
    ensures CountersOk(t)
  {
    assert forall x :: Next(t, x) == Next(s, x);
    assert forall q | q in t.table :: q in s.table.Keys;
  }

  /** A new page is pinned and zero; the other pages keep their contents exactly when the victim is safe. */
  lemma NewPageReturns(s: Pool, fd: int)
    requires Inv(s) && CountersOk(s) && VictimOf(s).Some?
    ensures var (r, t) := NewPage(s, fd); var p := PageId(fd, Next(s, fd));
            && r.Some? && r.value.0 == p && p !in s.table && p in t.table && t.table[p] == r.value.1
            && (fd !in s.next ==> p.pageNo == 0)
            && IsFrame(t, r.value.1) && t.frames[r.value.1].id == p && t.frames[r.value.1].pin > 0
            && Logical(t, p) == ZeroPage()
            && (VictimSafe(s) <==> forall q | q != p :: Logical(t, q) == Logical(s, q))
  {
    var p := PageId(fd, Next(s, fd));
    assert p !in s.table;
    NewPageInstalls(s, fd);
    InstalledLogical(s, p, ZeroPage());
    var u, t := Installed(s, VictimOf(s).value, p, ZeroPage()), NewPage(s, fd).1;
    assert forall q :: Logical(t, q) == Logical(u, q);
  }

  /** A new page has one user, the other pages keep theirs, and the file's counter alone moves on by one. */
  lemma NewPageAddsUser(s: Pool, fd: int)
    requires Inv(s) && CountersOk(s) && VictimOf(s).Some?
    ensures var (r, t) := NewPage(s, fd); var p := PageId(fd, Next(s, fd));
            && r.Some? && r.value.0 == p && IsFrame(t, r.value.1) && OthersKept(s, t, r.value.1)
            && !t.frames[r.value.1].dirty && s.frames[r.value.1].pin == 0
            && Pins(t, p) == 1 && (forall q :: Pins(t, q) == Pins(s, q) + if q == p then 1 else 0)
            && forall x :: Next(t, x) == Next(s, x) + if x == fd then 1 else 0
  {
    var p := PageId(fd, Next(s, fd));
    assert p !in s.table;
    VictimIdle(s);
    NewPageInstalls(s, fd);
    InstalledPins(s, p, ZeroPage());
    var u, t := Installed(s, VictimOf(s).value, p, ZeroPage()), NewPage(s, fd).1;
    assert forall q :: Pins(t, q) == Pins(u, q);
  }

  // ----- unpin_page, flush_page, delete_page, flush_all_pages and client writes -----

  ghost predicate SameCounters(s: Pool, t: Pool) {
    t.table == s.table && t.next == s.next
  }

  lemma UnpinInv(s: Pool, p: PageId, dirty: bool)
    requires Inv(s)
    ensures Inv(Unpin(s, p, dirty).1)
  {
    var t := Unpin(s, p, dirty).1;
    if p in s.table {
      assert s.table[p] !in s.free;
      assert forall g | 0 <= g < |s.frames| && g != s.table[p] :: t.frames[g] == s.frames[g];
    }
  }

  lemma UnpinKeeps(s: Pool, p: PageId, dirty: bool)
    requires Inv(s)
    ensures var (ok, t) := Unpin(s, p, dirty); Inv(t) && SameLogical(s, t) && SameCounters(s, t)
    ensures var (ok, t) := Unpin(s, p, dirty); ok <==> p in s.table && s.frames[s.table[p]].pin > 0
    ensures var (ok, t) := Unpin(s, p, dirty); Pins(t, p) == Pins(s, p) - if ok then 1 else 0
  {
    UnpinInv(s, p, dirty);
    hide FreeOk, LruOk;
    var t := Unpin(s, p, dirty).1;
    assert forall g | 0 <= g < |s.frames| :: t.frames[g].data == s.frames[g].data;
  }

  /** A release takes one user away and or-s in the dirty mark; a page without users stays as it is. */
  lemma UnpinTakesUser(s: Pool, p: PageId, dirty: bool)
    requires Inv(s)
    ensures var (ok, t) := Unpin(s, p, dirty);
            && (!ok ==> t == s && Pins(s, p) == 0)
            && (ok ==> var f := s.table[p];
                       && Pins(s, p) > 0 && IsFrame(s, f) && OthersKept(s, t, f)
                       && t.frames[f] == s.frames[f].(pin := t.frames[f].pin, dirty := s.frames[f].dirty || dirty))
            && forall q :: Pins(t, q) == Pins(s, q) - if q == p && ok then 1 else 0
  {
    assert forall q | q in s.table && p in s.table && q != p :: s.table[q] != s.table[p];
  }

  /** Releasing the last pin keeps unpinned pages clean unless an unmarked change would be forgotten. */
  lemma UnpinClean(s: Pool, p: PageId, dirty: bool)
    requires Inv(s) && CleanOk(s)
    ensures CleanOk(Unpin(s, p, dirty).1) <==>
            (p in s.table && s.frames[s.table[p]].pin == 1 && !dirty && !s.frames[s.table[p]].dirty
             ==> s.frames[s.table[p]].data == DiskRead(s.disk, p))
  {
    var t := Unpin(s, p, dirty).1;
    assert forall q | q in s.table && p in s.table && q != p :: s.table[q] != s.table[p];
    if p in s.table { assert t.table[p] == s.table[p]; }
  }

  /** The same pages in the same frames with the same bytes and users; only dirty bits and the disk may differ. */
  ghost predicate SameResidents(s: Pool, t: Pool) {
    && |t.frames| == |s.frames| && t.table == s.table && t.free == s.free && t.lru == s.lru && t.next == s.next
    && forall g | 0 <= g < |s.frames| :: t.frames[g] == s.frames[g].(dirty := t.frames[g].dirty)
  }

  lemma FlushFrameKeeps(s: Pool, f: int)
    requires Inv(s) && IsFrame(s, f) && s.frames[f].id in s.table && s.table[s.frames[f].id] == f
    ensures var t := FlushFrame(s, f); Inv(t) && SameLogical(s, t) && SameResidents(s, t) && (CleanOk(s) ==> CleanOk(t))
    ensures DiskRead(FlushFrame(s, f).disk, s.frames[f].id) == Logical(s, s.frames[f].id)
    ensures var t := FlushFrame(s, f); !t.frames[f].dirty && OthersKept(s, t, f)
  {
    var t := FlushFrame(s, f);
    assert SameResidents(s, t);
    ResidentsInv(s, t);
    hide LruOk, FreeOk;
  }

  /** flush_page succeeds exactly for a resident page, and then the disk holds its bytes and it is clean. */
  lemma FlushReturns(s: Pool, p: PageId)
    requires Inv(s)
    ensures var (ok, t) := Flush(s, p);
            && (ok <==> p in s.table) && (!ok ==> t == s)
            && (ok ==> SameResidents(s, t) && DiskRead(t.disk, p) == Logical(s, p) && !t.frames[s.table[p]].dirty
                       && OthersKept(s, t, s.table[p]) && forall q | q != p :: DiskRead(t.disk, q) == DiskRead(s.disk, q))
  {
    if p in s.table { FlushFrameKeeps(s, s.table[p]); }
  }

  lemma ResidentsInv(s: Pool, t: Pool)
    requires Inv(s) && SameResidents(s, t)
    requires forall f | f in s.free :: IsFrame(t, f) && !t.frames[f].dirty
    ensures Inv(t)
  {
  }

  lemma DeleteFrames(s: Pool, p: PageId)
    requires Inv(s) && p in s.table && s.frames[s.table[p]].pin == 0
    ensures var t, f := Delete(s, p).1, s.table[p];
            && f !in s.free && (forall g | 0 <= g < |s.frames| && g != f :: t.frames[g] == s.frames[g])
            && (forall q | q in s.table && q != p :: s.table[q] != f)
            && (forall g :: g in t.free <==> g in s.free || g == f)
  {
  }

  lemma DeleteInv(s: Pool, p: PageId)
    requires Inv(s)
    ensures Inv(Delete(s, p).1)
  {
    if p in s.table && s.frames[s.table[p]].pin == 0 { DeleteFrames(s, p); }
  }

  lemma DeleteKeeps(s: Pool, p: PageId)
    requires Inv(s)
    ensures var (ok, t) := Delete(s, p); SameLogical(s, t) && (CleanOk(s) ==> CleanOk(t))
    ensures var (ok, t) := Delete(s, p); t.next == s.next && t.table.Keys <= s.table.Keys
    ensures var (ok, t) := Delete(s, p); (ok <==> p !in s.table || s.frames[s.table[p]].pin == 0) && (ok ==> p !in t.table)
    ensures var (ok, t) := Delete(s, p); forall q :: Pins(t, q) == Pins(s, q)
  {
    if p in s.table && s.frames[s.table[p]].pin == 0 { DeleteFrames(s, p); }
  }

  /** The frame of a deleted page is the last to be reused among the free ones, and it stays in the replacer. */
  lemma DeleteFrees(s: Pool, p: PageId)
    requires Inv(s) && p in s.table && Delete(s, p).0
    ensures var t, f := Delete(s, p).1, s.table[p];
            && OthersKept(s, t, f) && t.lru == s.lru && f in t.lru && f !in s.free && t.free == s.free + [f]
            && DiskRead(t.disk, p) == Logical(s, p)
  {
    DeleteFrames(s, p);
  }

  lemma WriteKeeps(s: Pool, p: PageId, data: Bytes)
    requires Inv(s) && p in s.table && s.frames[s.table[p]].pin > 0
    ensures var t := Write(s, p, data); Inv(t) && SameCounters(s, t) && (CleanOk(s) ==> CleanOk(t))
    ensures Logical(Write(s, p, data), p) == data && forall q | q != p :: Logical(Write(s, p, data), q) == Logical(s, q)
  {
    var t := Write(s, p, data);
    assert forall g | 0 <= g < |s.frames| :: t.frames[g].(data := []) == s.frames[g].(data := []);
  }

  lemma MarkKeeps(s: Pool, p: PageId)
    requires Inv(s)
    ensures var t := Mark(s, p); Inv(t) && SameLogical(s, t) && SameCounters(s, t) && (CleanOk(s) ==> CleanOk(t))
    ensures var t := Mark(s, p);
            SameResidents(s, t) && (p in s.table ==> t.frames[s.table[p]].dirty && OthersKept(s, t, s.table[p])) && t.disk == s.disk
  {
    var t := Mark(s, p);
    assert SameResidents(s, t);
    if p in s.table { assert s.table[p] !in s.free; }
  }

  lemma ToFlushResident(s: Pool, f: int, fd: int)
    requires Inv(s) && IsFrame(s, f) && ToFlush(s.frames[f], fd)
    ensures s.frames[f].id in s.table && s.table[s.frames[f].id] == f
  {
    assert f !in s.free;
  }

  lemma SameSelf(s: Pool)
    ensures SameLogical(s, s) && SameResidents(s, s)
  {
  }

  lemma SameTrans(s: Pool, t: Pool, u: Pool)
    requires SameLogical(s, t) && SameLogical(t, u) && SameResidents(s, t) && SameResidents(t, u)
    ensures SameLogical(s, u) && SameResidents(s, u)
  {
    forall p ensures Logical(s, p) == Logical(u, p) { assert Logical(s, p) == Logical(t, p) == Logical(u, p); }
  }

  lemma {:induction false} FlushAllKeeps(s: Pool, fd: int, n: nat)
    requires Inv(s) && n <= |s.frames|
    ensures var t := FlushAll(s, fd, n);
            Inv(t) && SameLogical(s, t) && SameResidents(s, t) && (CleanOk(s) ==> CleanOk(t))
  {
    hide Inv, CleanOk, SameLogical, SameResidents, FlushFrame;
    if n == 0 {
      SameSelf(s);
    } else {
      FlushAllKeeps(s, fd, n - 1);
      var t, f := FlushAll(s, fd, n - 1), n - 1;
      if ToFlush(t.frames[f], fd) {
        ToFlushResident(t, f, fd);
        FlushFrameKeeps(t, f);
        SameTrans(s, t, FlushFrame(t, f));
      }
    }
  }

  lemma FrameIds(s: Pool, f: int, g: int, fd: int)
    requires Inv(s) && IsFrame(s, f) && IsFrame(s, g) && f != g && ToFlush(s.frames[f], fd) && ToFlush(s.frames[g], fd)
    ensures s.frames[f].id != s.frames[g].id
  {
    ToFlushResident(s, f, fd);
    ToFlushResident(s, g, fd);
  }

  lemma {:induction false} FlushAllWrites(s: Pool, fd: int, n: nat, g: int)
    requires Inv(s) && 0 <= g < n <= |s.frames| && ToFlush(s.frames[g], fd)
    ensures DiskRead(FlushAll(s, fd, n).disk, s.frames[g].id) == s.frames[g].data
  {
    var f := n - 1;
    FlushAllKeeps(s, fd, f);
    hide Inv, SameLogical, CleanOk;
    var t := FlushAll(s, fd, f);
    assert t.frames[f].id == s.frames[f].id && t.frames[f].data == s.frames[f].data;
    if g < f {
      FlushAllWrites(s, fd, f, g);
      if ToFlush(s.frames[f], fd) { FrameIds(s, f, g, fd); }
    }
  }

  /** After flush_all_pages the disk holds the contents of every page of the file, marked dirty or not. */
  lemma FlushAllPersists(s: Pool, fd: int, p: PageId)
    requires Inv(s) && p.fd == fd
    ensures DiskRead(FlushAll(s, fd, |s.frames|).disk, p) == Logical(s, p)
  {
    FlushAllKeeps(s, fd, |s.frames|);
    var t := FlushAll(s, fd, |s.frames|);
    if p in s.table {
      FlushAllWrites(s, fd, |s.frames|, s.table[p]);
    } else {
      assert Logical(t, p) == Logical(s, p);
    }
  }

  /** After flush_all_pages exactly the dirty pages of other files are dirty. */
  lemma {:induction false} FlushAllCleans(s: Pool, fd: int, n: nat)
    requires n <= |s.frames|
    ensures var t := FlushAll(s, fd, n);
            forall f | 0 <= f < |s.frames| :: t.frames[f] == s.frames[f].(dirty := s.frames[f].dirty && !(f < n && ToFlush(s.frames[f], fd)))
  {
    if n > 0 { FlushAllCleans(s, fd, n - 1); }
  }

  /** flush_all_pages touches neither the disk pages nor the dirty bits of other files. */
  lemma {:induction false} FlushAllOthers(s: Pool, fd: int, n: nat)
    requires n <= |s.frames|
    ensures var t := FlushAll(s, fd, n);
            && (forall p: PageId | p.fd != fd :: DiskRead(t.disk, p) == DiskRead(s.disk, p))
            && (forall f | 0 <= f < |s.frames| && s.frames[f].id.fd != fd :: t.frames[f] == s.frames[f])
            && (forall f | 0 <= f < |s.frames| :: t.frames[f].id == s.frames[f].id)
  {
    if n > 0 { FlushAllOthers(s, fd, n - 1); }
  }
}
