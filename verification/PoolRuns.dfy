/**
 Runs of the buffer pool.  Every public operation holds one latch, so a run is a sequence of
 operations; between them clients write to pages they have pinned.
 */
module PoolRuns {
  import opened Defs
  import opened Lru
  import opened PoolState

  datatype Op =
    | FetchOp(p: PageId)
    | UnpinOp(p: PageId, dirty: bool)
    | FlushOp(p: PageId)
    | NewOp(fd: int)
    | DeleteOp(p: PageId)
    | FlushAllOp(fd: int)
    | WriteOp(p: PageId, data: Bytes)
    | MarkOp(p: PageId)
    | OpenOp(fd: int, count: int)

  /**
   The pool, the pages clients changed without marking them yet, when each frame was last released, and the users of
   each page: one for every fetch or allocation that returned it and was not yet answered by a successful release.
   */
  datatype World = World(pool: Pool, written: set<PageId>, clock: nat, released: map<int, nat>, users: multiset<PageId>)

  function StepPool(s: Pool, op: Op): Pool
    requires Inv(s) && (op.WriteOp? ==> op.p in s.table)
  {
    match op
    case FetchOp(p) => Fetch(s, p).1
    case UnpinOp(p, dirty) => Unpin(s, p, dirty).1
    case FlushOp(p) => Flush(s, p).1
    case NewOp(fd) => NewPage(s, fd).1
    case DeleteOp(p) => Delete(s, p).1
    case FlushAllOp(fd) => FlushAll(s, fd, |s.frames|)
    case WriteOp(p, data) => Write(s, p, data)
    case MarkOp(p) => Mark(s, p)
    case OpenOp(fd, count) => s.(next := s.next[fd := count])
  }

  /** What the callers have to respect. */
  predicate Allowed(w: World, op: Op)
    requires Inv(w.pool)
  {
    var s := w.pool;
    match op
    case FetchOp(p) => p.pageNo != INVALID_PAGE_ID && p.pageNo < Next(s, p.fd)
    case WriteOp(p, _) => p in s.table && s.frames[s.table[p]].pin > 0
    case MarkOp(p) => p in s.table && s.frames[s.table[p]].pin > 0
    case UnpinOp(p, dirty) =>
      p in s.table && s.frames[s.table[p]].pin == 1 && !dirty && !s.frames[s.table[p]].dirty ==> p !in w.written
    case OpenOp(fd, count) => count >= 0 && forall p | p in s.table :: p.fd != fd
    case _ => true
  }

  function Touched(w: World, op: Op): set<PageId>
    requires Inv(w.pool)
  {
    match op
    case WriteOp(p, _) => w.written + {p}
    case NewOp(fd) =>
      var p := PageId(fd, Next(w.pool, fd));
      if DiskRead(w.pool.disk, p) == ZeroPage() then w.written else w.written + {p}
    case UnpinOp(p, dirty) => if dirty && Unpin(w.pool, p, dirty).0 then w.written - {p} else w.written
    case FlushOp(p) => w.written - {p}
    case MarkOp(p) => w.written - {p}
    case FlushAllOp(fd) => set p | p in w.written && p.fd != fd
    case _ => w.written
  }

  /** The frame this operation releases: its last pin goes away. */
  function Released(s: Pool, op: Op): Option<int>
    requires Inv(s)
  {
    if op.UnpinOp? && op.p in s.table && s.frames[s.table[op.p]].pin == 1 then Some(s.table[op.p]) else None
  }

  /** Who uses the pages, going by what the operations return. */
  function UsersAfter(w: World, op: Op): multiset<PageId>
    requires Inv(w.pool)
  {
    match op
    case FetchOp(p) => if Fetch(w.pool, p).0.Some? then w.users + multiset{p} else w.users
    case NewOp(fd) => if NewPage(w.pool, fd).0.Some? then w.users + multiset{NewPage(w.pool, fd).0.value.0} else w.users
    case UnpinOp(p, dirty) => if Unpin(w.pool, p, dirty).0 then w.users - multiset{p} else w.users
    case _ => w.users
  }

  function Step(w: World, op: Op): World
    requires Inv(w.pool) && (op.WriteOp? ==> op.p in w.pool.table)
  {
    var t := StepPool(w.pool, op);
    World(t, Touched(w, op) * t.table.Keys, w.clock + 1,
          match Released(w.pool, op) case None => w.released case Some(f) => w.released[f := w.clock],
          UsersAfter(w, op))
  }

  // ----- What every run keeps -----

  /** Unmarked pages the clients did not change are on disk, and a released page is marked or unchanged. */
  ghost predicate WrittenOk(s: Pool, written: set<PageId>) {
    && (forall p | p in s.table && IsFrame(s, s.table[p]) && !s.frames[s.table[p]].dirty && p !in written ::
          s.frames[s.table[p]].data == DiskRead(s.disk, p))
    && (forall p | p in s.table && IsFrame(s, s.table[p]) && s.frames[s.table[p]].pin == 0 :: s.frames[s.table[p]].dirty || p !in written)
  }

  ghost predicate Descending(list: seq<int>, time: map<int, nat>) {
    && (forall f | f in list :: f in time)
    && (forall i, j | 0 <= i < j < |list| :: time[list[j]] < time[list[i]])
  }

  /** The replacer's list is ordered by the time of release, most recent first. */
  ghost predicate Ordered(w: World) {
    Descending(w.pool.lru, w.released) && forall f | f in w.released :: w.released[f] < w.clock
  }

  ghost predicate WorldInv(w: World) {
    Inv(w.pool) && CountersOk(w.pool) && WrittenOk(w.pool, w.written) && Ordered(w)
  }

  lemma WrittenClean(s: Pool, written: set<PageId>)
    requires WrittenOk(s, written)
    ensures CleanOk(s)
  {
  }

  lemma StepInv(w: World, op: Op)
    requires WorldInv(w) && Allowed(w, op)
    ensures Inv(StepPool(w.pool, op)) && CountersOk(StepPool(w.pool, op))
  {
    hide CountersOk, FreeOk, LruOk, Ordered, WrittenOk;
    var s := w.pool;
    match op
    case FetchOp(p) =>
      FetchKeeps(s, p);
      FetchCounters(s, p);
    case UnpinOp(p, dirty) =>
      UnpinKeeps(s, p, dirty);
      FewerPages(s, Unpin(s, p, dirty).1);
    case FlushOp(p) =>
      if p in s.table {
        FlushFrameKeeps(s, s.table[p]);
        FewerPages(s, FlushFrame(s, s.table[p]));
      }
    case NewOp(fd) => NewPageKeeps(s, fd);
    case DeleteOp(p) =>
      DeleteInv(s, p);
      DeleteKeeps(s, p);
      FewerPages(s, Delete(s, p).1);
    case FlushAllOp(fd) =>
      FlushAllKeeps(s, fd, |s.frames|);
      FewerPages(s, FlushAll(s, fd, |s.frames|));
    case WriteOp(p, data) =>
      WriteKeeps(s, p, data);
      FewerPages(s, Write(s, p, data));
    case MarkOp(p) =>
      MarkKeeps(s, p);
      FewerPages(s, Mark(s, p));
    case OpenOp(fd, count) =>
      NextIrrelevant(s, s.next[fd := count]);
      OpenCounters(s, fd, count);
  }

  lemma FetchCounters(s: Pool, p: PageId)
    requires Inv(s) && CountersOk(s) && p.pageNo != INVALID_PAGE_ID && p.pageNo < Next(s, p.fd)
    ensures CountersOk(Fetch(s, p).1)
  {
    var t := Fetch(s, p).1;
    if p !in s.table && VictimOf(s).Some? { FetchMiss(s, p); }
    forall x ensures Next(t, x) == Next(s, x) { }
  }

  lemma OpenCounters(s: Pool, fd: int, count: int)
    requires CountersOk(s) && count >= 0 && forall p | p in s.table :: p.fd != fd
    ensures CountersOk(s.(next := s.next[fd := count]))
  {
    var t := s.(next := s.next[fd := count]);
    forall x ensures Next(t, x) == if x == fd then count else Next(s, x) { }
  }

  /** Which pages' contents an operation sets, and to what. */
  function Sets(s: Pool, op: Op): map<PageId, Bytes>
    requires Inv(s)
  {
    match op
    case NewOp(fd) => if NewPage(s, fd).0.Some? then map[NewPage(s, fd).0.value.0 := ZeroPage()] else map[]
    case WriteOp(p, data) => map[p := data]
    case _ => map[]
  }

  lemma StepLogical(w: World, op: Op, q: PageId)
    requires WorldInv(w) && Allowed(w, op)
    ensures Logical(StepPool(w.pool, op), q) == if q in Sets(w.pool, op) then Sets(w.pool, op)[q] else Logical(w.pool, q)
  {
    var s := w.pool;
    WrittenClean(s, w.written);
    CleanVictimSafe(s);
    match op
    case FetchOp(p) => FetchKeeps(s, p);
    case UnpinOp(p, dirty) => UnpinKeeps(s, p, dirty);
    case FlushOp(p) => if p in s.table { FlushFrameKeeps(s, s.table[p]); }
    case NewOp(fd) => if VictimOf(s).Some? { NewPageReturns(s, fd); }
    case DeleteOp(p) => DeleteKeeps(s, p);
    case FlushAllOp(fd) => FlushAllKeeps(s, fd, |s.frames|);
    case WriteOp(p, data) => WriteKeeps(s, p, data);
    case MarkOp(p) => MarkKeeps(s, p);
    case OpenOp(fd, count) =>
  }

  lemma InstalledWritten(s: Pool, written: set<PageId>, p: PageId, data: Bytes, written': set<PageId>)
    requires Inv(s) && WrittenOk(s, written) && VictimOf(s).Some? && p !in s.table && p.pageNo != INVALID_PAGE_ID
    requires IsFrame(s, VictimOf(s).value)
    requires data == DiskRead(s.disk, p) || p in written'
    requires forall q | q in s.table && q != s.frames[VictimOf(s).value].id :: q in written' <==> q in written
    ensures WrittenOk(Installed(s, VictimOf(s).value, p, data), written')
  {
    VictimIdle(s);
    var f := VictimOf(s).value;
    var t := Installed(s, f, p, data);
    assert forall q | q in t.table && q != p :: q in s.table && q != s.frames[f].id && s.table[q] != f && t.table[q] == s.table[q];
    assert DiskRead(t.disk, p) == DiskRead(s.disk, p);
  }

  lemma StepWrittenInstall(w: World, op: Op)
    requires WorldInv(w) && Allowed(w, op) && (op.FetchOp? || op.NewOp?)
    ensures WrittenOk(StepPool(w.pool, op), Step(w, op).written)
  {
    hide Ordered, UsersAfter;
    var s, w' := w.pool, Step(w, op).written;
    if op.FetchOp? && op.p in s.table {
    } else if VictimOf(s).Some? {
      VictimIdle(s);
      if op.FetchOp? {
        FetchMiss(s, op.p);
        InstalledWritten(s, w.written, op.p, Logical(s, op.p), w');
      } else {
        var p := PageId(op.fd, Next(s, op.fd));
        NewPageInstalls(s, op.fd);
        InstalledWritten(s, w.written, p, ZeroPage(), w');
      }
    }
  }

  lemma StepWrittenOther(w: World, op: Op)
    requires WorldInv(w) && Allowed(w, op) && (op.UnpinOp? || op.WriteOp? || op.MarkOp? || op.OpenOp?)
    ensures WrittenOk(StepPool(w.pool, op), Step(w, op).written)
  {
    hide CountersOk, Ordered, UsersAfter, FreeOk, LruOk;
    var s := w.pool;
    assert forall p, q | p in s.table && q in s.table && p != q :: s.table[p] != s.table[q];
  }

  lemma StepWrittenFlush(w: World, p: PageId)
    requires WorldInv(w)
    ensures WrittenOk(Flush(w.pool, p).1, Step(w, FlushOp(p)).written)
  {
    hide FreeOk, LruOk, CountersOk, Ordered;
    var s := w.pool;
    assert forall q | p in s.table && q in s.table && p != q :: s.table[p] != s.table[q];
  }

  lemma StepWrittenDelete(w: World, p: PageId)
    requires WorldInv(w)
    ensures WrittenOk(Delete(w.pool, p).1, Step(w, DeleteOp(p)).written)
  {
    var s := w.pool;
    if p in s.table && s.frames[s.table[p]].pin == 0 {
      DeleteFrames(s, p);
      hide FreeOk, LruOk, CountersOk, Ordered;
      var t := Delete(s, p).1;
      assert forall q | q in t.table :: q in s.table && q != p && t.table[q] == s.table[q] && DiskRead(t.disk, q) == DiskRead(s.disk, q);
    }
  }

  lemma FlushedWritten(s: Pool, t: Pool, written: set<PageId>, written': set<PageId>, fd: int)
    requires Inv(s) && WrittenOk(s, written) && SameResidents(s, t)
    requires forall p | p in s.table && p.fd == fd :: DiskRead(t.disk, p) == s.frames[s.table[p]].data && p !in written'
    requires forall p | p in s.table && p.fd != fd ::
               && DiskRead(t.disk, p) == DiskRead(s.disk, p) && t.frames[s.table[p]] == s.frames[s.table[p]]
               && (p in written' <==> p in written)
    ensures WrittenOk(t, written')
  {
  }

  lemma FlushAllResident(s: Pool, fd: int)
    requires Inv(s)
    ensures forall p | p in s.table && p.fd == fd :: DiskRead(FlushAll(s, fd, |s.frames|).disk, p) == s.frames[s.table[p]].data
  {
    forall p | p in s.table && p.fd == fd ensures DiskRead(FlushAll(s, fd, |s.frames|).disk, p) == s.frames[s.table[p]].data {
      FlushAllPersists(s, fd, p);
    }
  }

  lemma StepWrittenFlushAll(w: World, fd: int)
    requires WorldInv(w)
    ensures WrittenOk(FlushAll(w.pool, fd, |w.pool.frames|), Step(w, FlushAllOp(fd)).written)
  {
    hide LruOk, FreeOk, CleanOk, WrittenOk, Ordered, SameLogical, Logical, FlushAll, ToFlush;
    var s := w.pool;
    FlushAllKeeps(s, fd, |s.frames|);
    var t := FlushAll(s, fd, |s.frames|);
    FlushAllResident(s, fd);
    FlushAllOthers(s, fd, |s.frames|);
    FlushedWritten(s, t, w.written, Step(w, FlushAllOp(fd)).written, fd);
  }

  lemma WithoutDescending(list: seq<int>, time: map<int, nat>, f: int)
    requires Descending(list, time)
    ensures Descending(Without(list, f), time)
  {
    if i :| 0 <= i < |list| && list[i] == f {
      WithoutAt(list, i);
      var r := list[..i] + list[i + 1..];
      forall k | 0 <= k < |r| ensures r[k] == list[if k < i then k else k + 1] { }
    } else {
      WithoutAbsent(list, f);
    }
  }

  lemma FrontDescending(list: seq<int>, time: map<int, nat>, f: int, now: nat)
    requires Descending(list, time) && f !in list && forall g | g in time :: time[g] < now
    ensures Descending([f] + list, time[f := now])
  {
    var r, m := [f] + list, time[f := now];
    forall k | 0 < k < |r| ensures r[k] == list[k - 1] && m[r[k]] == time[r[k]] { }
  }

  /** What each operation leaves in the replacer's list, besides the frame it may release. */
  lemma StepLru(w: World, op: Op)
    requires Inv(w.pool) && Allowed(w, op) && Descending(w.pool.lru, w.released)
    ensures var t := StepPool(w.pool, op);
            match Released(w.pool, op)
            case None => Descending(t.lru, w.released)
            case Some(f) => f !in w.pool.lru && t.lru == [f] + w.pool.lru
  {
    var s := w.pool;
    if op.FetchOp? && op.p in s.table {
      WithoutDescending(s.lru, w.released, s.table[op.p]);
    } else if (op.FetchOp? || op.NewOp?) && VictimOf(s).Some? {
      var f, l := VictimOf(s).value, TakeVictim(s).lru;
      assert Descending(l, w.released);
      WithoutDescending(l, w.released, f);
      if op.FetchOp? { FetchMiss(s, op.p); } else { NewPageInstalls(s, op.fd); }
    } else if op.FlushAllOp? {
      FlushAllKeeps(s, op.fd, |s.frames|);
    }
  }

  lemma StepOrdered(w: World, op: Op)
    requires WorldInv(w) && Allowed(w, op)
    ensures Ordered(Step(w, op))
  {
    StepLru(w, op);
    hide StepPool;
    match Released(w.pool, op)
    case None =>
    case Some(f) => FrontDescending(w.pool.lru, w.released, f, w.clock);
  }

  lemma StepKeeps(w: World, op: Op)
    requires WorldInv(w) && Allowed(w, op)
    ensures WorldInv(Step(w, op))
  {
    StepInv(w, op);
    StepOrdered(w, op);
    match op
    case FetchOp(_) => StepWrittenInstall(w, op);
    case NewOp(_) => StepWrittenInstall(w, op);
    case FlushOp(p) => StepWrittenFlush(w, p);
    case DeleteOp(p) => StepWrittenDelete(w, p);
    case FlushAllOp(fd) => StepWrittenFlushAll(w, fd);
    case _ => StepWrittenOther(w, op);
  }

  // ----- Runs, and the plain map they refine -----

  function Run(w: World, ops: seq<Op>): World
    requires RunAllowed(w, ops)
    decreases ops
  {
    if ops == [] then w else Run(Step(w, ops[0]), ops[1..])
  }

  /** Every operation of the run is allowed where it happens. */
  ghost predicate RunAllowed(w: World, ops: seq<Op>)
    decreases ops
  {
    ops == [] || (Inv(w.pool) && Allowed(w, ops[0]) && RunAllowed(Step(w, ops[0]), ops[1..]))
  }

  function Get(store: map<PageId, Bytes>, p: PageId): Bytes {
    if p in store then store[p] else ZeroPage()
  }

  ghost predicate Refines(s: Pool, store: map<PageId, Bytes>) {
    forall p :: Logical(s, p) == Get(store, p)
  }

  /** The plain map after a run: only new pages and client writes change it. */
  function StoreAfter(w: World, ops: seq<Op>, store: map<PageId, Bytes>): map<PageId, Bytes>
    requires RunAllowed(w, ops)
    decreases ops
  {
    if ops == [] then store else StoreAfter(Step(w, ops[0]), ops[1..], store + Sets(w.pool, ops[0]))
  }

  /** Over every run the pool stays consistent and its contents are those of the plain map. */
  lemma {:induction false} RunRefines(w: World, ops: seq<Op>, store: map<PageId, Bytes>)
    requires WorldInv(w) && Refines(w.pool, store) && RunAllowed(w, ops)
    ensures WorldInv(Run(w, ops)) && Refines(Run(w, ops).pool, StoreAfter(w, ops, store))
    decreases ops
  {
    if ops != [] {
      var op := ops[0];
      StepKeeps(w, op);
      forall q ensures Logical(Step(w, op).pool, q) == Get(store + Sets(w.pool, op), q) { StepLogical(w, op, q); }
      RunRefines(Step(w, op), ops[1..], store + Sets(w.pool, op));
    }
  }

  // ----- Users -----

  /** The pin count of every page is the number of its users. */
  ghost predicate UsersOk(w: World) {
    forall p :: Pins(w.pool, p) == w.users[p]
  }

  lemma SamePins(s: Pool, t: Pool)
    requires SameResidents(s, t)
    ensures forall p :: Pins(t, p) == Pins(s, p)
  {
  }

  lemma OneUserMore(s: Pool, t: Pool, users: multiset<PageId>, p: PageId)
    requires forall q :: Pins(s, q) == users[q]
    requires forall q :: Pins(t, q) == Pins(s, q) + if q == p then 1 else 0
    ensures forall q :: Pins(t, q) == (users + multiset{p})[q]
  {
    hide Pins;
  }

  lemma OneUserLess(s: Pool, t: Pool, users: multiset<PageId>, p: PageId)
    requires Pins(s, p) > 0 && forall q :: Pins(s, q) == users[q]
    requires forall q :: Pins(t, q) == Pins(s, q) - if q == p then 1 else 0
    ensures forall q :: Pins(t, q) == (users - multiset{p})[q]
  {
    hide Pins;
  }

  /** fetch_page and new_page add the user they return the page to, unpin_page takes one away. */
  lemma UseCounts(w: World, op: Op)
    requires WorldInv(w) && Allowed(w, op) && UsersOk(w) && (op.FetchOp? || op.NewOp? || op.UnpinOp?)
    ensures UsersOk(Step(w, op))
  {
    hide FreeOk, TableOk, LruOk, CountersOk, WrittenOk, Ordered, Pins, Touched, Released, Fetch, Unpin, NewPage, OthersKept, Logical,
         VictimOf;
    var s, t := w.pool, StepPool(w.pool, op);
    match op
    case FetchOp(p) =>
      FetchReturns(s, p);
      if Fetch(s, p).0.Some? {
        FetchAddsUser(s, p);
        OneUserMore(s, t, w.users, p);
      }
    case UnpinOp(p, dirty) =>
      UnpinTakesUser(s, p, dirty);
      if Unpin(s, p, dirty).0 { OneUserLess(s, t, w.users, p); }
    case NewOp(fd) =>
      NewFails(s, fd);
      if VictimOf(s).Some? {
        NewPageAddsUser(s, fd);
        OneUserMore(s, t, w.users, PageId(fd, Next(s, fd)));
      }
  }

  lemma NewFails(s: Pool, fd: int)
    requires Inv(s)
    ensures VictimOf(s) == None ==> NewPage(s, fd) == (None, s)
  {
  }

  /** No other operation changes how often a page is pinned. */
  lemma OtherPins(s: Pool, op: Op)
    requires Inv(s) && (op.WriteOp? ==> op.p in s.table) && !(op.FetchOp? || op.NewOp? || op.UnpinOp?)
    ensures forall q :: Pins(StepPool(s, op), q) == Pins(s, q)
  {
    hide FreeOk, LruOk, Pins, CleanOk, SameLogical;
    match op
    case FlushOp(p) =>
      if p in s.table {
        FlushFrameKeeps(s, s.table[p]);
        SamePins(s, FlushFrame(s, s.table[p]));
      }
    case DeleteOp(p) => DeleteKeeps(s, p);
    case FlushAllOp(fd) =>
      FlushAllKeeps(s, fd, |s.frames|);
      SamePins(s, FlushAll(s, fd, |s.frames|));
    case WriteOp(p, data) => WritePins(s, p, data);
    case MarkOp(p) =>
      MarkKeeps(s, p);
      SamePins(s, Mark(s, p));
    case OpenOp(fd, count) => OpenPins(s, s.next[fd := count]);
  }

  lemma StepCounts(w: World, op: Op)
    requires WorldInv(w) && Allowed(w, op) && UsersOk(w)
    ensures UsersOk(Step(w, op))
  {
    if op.FetchOp? || op.NewOp? || op.UnpinOp? {
      UseCounts(w, op);
    } else {
      OtherPins(w.pool, op);
      hide FreeOk, TableOk, LruOk, CountersOk, WrittenOk, Ordered, Pins, Touched, Released, StepPool;
    }
  }

  lemma WritePins(s: Pool, p: PageId, data: Bytes)
    requires Inv(s) && p in s.table
    ensures forall q :: Pins(Write(s, p, data), q) == Pins(s, q)
  {
  }

  lemma OpenPins(s: Pool, next: map<int, int>)
    ensures forall q :: Pins(s.(next := next), q) == Pins(s, q)
  {
  }

  /** Over every run the pin count of every page is the number of its users. */
  lemma {:induction false} RunCounts(w: World, ops: seq<Op>)
    requires WorldInv(w) && UsersOk(w) && RunAllowed(w, ops)
    ensures UsersOk(Run(w, ops))
    decreases ops
  {
    if ops != [] {
      hide Step, UsersOk, WorldInv;
      StepKeeps(w, ops[0]);
      StepCounts(w, ops[0]);
      RunCounts(Step(w, ops[0]), ops[1..]);
    }
  }

  /** A page that has a user stays where it is, whatever the operation. */
  lemma UsedStays(w: World, op: Op, p: PageId)
    requires WorldInv(w) && Allowed(w, op) && UsersOk(w) && p in w.users
    ensures var t := Step(w, op).pool; p in w.pool.table && p in t.table && t.table[p] == w.pool.table[p]
  {
    hide CountersOk, Ordered, WrittenOk;
    var s := w.pool;
    assert Pins(s, p) > 0;
    match op
    case FetchOp(q) =>
      if q !in s.table && VictimOf(s).Some? {
        VictimIdle(s);
        FetchMiss(s, q);
      }
    case NewOp(fd) =>
      if VictimOf(s).Some? {
        VictimIdle(s);
        NewPageInstalls(s, fd);
        NewPageReturns(s, fd);
      }
    case FlushAllOp(fd) => FlushAllKeeps(s, fd, |s.frames|);
    case _ =>
  }

  /** `p` has a user before every operation of the run. */
  ghost predicate UsedThroughout(w: World, ops: seq<Op>, p: PageId)
    requires RunAllowed(w, ops)
    decreases ops
  {
    ops == [] || (p in w.users && UsedThroughout(Step(w, ops[0]), ops[1..], p))
  }

  /** Over every run a page that always has a user left is never evicted: it keeps its frame. */
  lemma {:induction false} RunHolds(w: World, ops: seq<Op>, p: PageId)
    requires WorldInv(w) && UsersOk(w) && RunAllowed(w, ops) && UsedThroughout(w, ops, p) && p in w.pool.table
    ensures p in Run(w, ops).pool.table && Run(w, ops).pool.table[p] == w.pool.table[p]
    decreases ops
  {
    if ops != [] {
      hide Step, UsersOk, WorldInv;
      StepKeeps(w, ops[0]);
      StepCounts(w, ops[0]);
      UsedStays(w, ops[0], p);
      RunHolds(Step(w, ops[0]), ops[1..], p);
    }
  }

  /** A fetch fails exactly when the page is not resident and every frame holds a page that has a user. */
  lemma FetchFailsIff(w: World, p: PageId)
    requires WorldInv(w) && UsersOk(w) && p.pageNo != INVALID_PAGE_ID
    ensures Fetch(w.pool, p).0 == None <==> p !in w.pool.table && forall f | 0 <= f < |w.pool.frames| :: w.pool.frames[f].id in w.users
  {
    var s := w.pool;
    FetchReturns(s, p);
    hide CountersOk, Ordered, WrittenOk, Fetch;
    forall f | 0 <= f < |s.frames| ensures s.frames[f].id in w.users <==> f !in s.free && s.frames[f].pin > 0 {
      assert Pins(s, s.frames[f].id) == w.users[s.frames[f].id];
    }
  }

  /** A pool whose frames are all free, as the constructor leaves it. */
  ghost predicate Fresh(s: Pool) {
    && s.table == map[] && s.lru == [] && s.free == seq(|s.frames|, i => i)
    && (forall f | 0 <= f < |s.frames| :: s.frames[f].id.pageNo == INVALID_PAGE_ID && !s.frames[f].dirty && s.frames[f].pin == 0)
    && forall fd :: Next(s, fd) >= 0
  }

  lemma FreshWorld(s: Pool)
    requires Fresh(s)
    ensures WorldInv(World(s, {}, 0, map[], multiset{})) && UsersOk(World(s, {}, 0, map[], multiset{})) && Refines(s, s.disk)
  {
    forall f | 0 <= f < |s.frames| ensures f in s.free { assert s.free[f] == f; }
  }

  // ----- Consequences in every reachable state -----

  /** A fetch in a reachable state returns the last contents set, whatever was evicted since. */
  lemma FetchReturnsStored(w: World, store: map<PageId, Bytes>, p: PageId)
    requires WorldInv(w) && Refines(w.pool, store) && p.pageNo != INVALID_PAGE_ID && Fetch(w.pool, p).0.Some?
    ensures var (r, t) := Fetch(w.pool, p); IsFrame(t, r.value) && t.frames[r.value].id == p && t.frames[r.value].data == Get(store, p)
  {
    FetchReturns(w.pool, p);
  }

  /** The page evicted is unpinned, and of all resident unpinned pages it was released first. */
  lemma VictimLeastRecent(w: World)
    requires WorldInv(w) && w.pool.free == [] && VictimOf(w.pool).Some?
    ensures var (s, v) := (w.pool, VictimOf(w.pool).value);
            && IsFrame(s, v) && s.frames[v].pin == 0 && v in w.released
            && forall f | 0 <= f < |s.frames| && s.frames[f].pin == 0 && f != v :: f in w.released && w.released[v] < w.released[f]
  {
    VictimIdle(w.pool);
    var s := w.pool;
    forall f | 0 <= f < |s.frames| && s.frames[f].pin == 0 && f != VictimOf(s).value
      ensures f in w.released && w.released[VictimOf(s).value] < w.released[f]
    {
      assert f in s.lru;
      var i :| 0 <= i < |s.lru| && s.lru[i] == f;
    }
  }

  /** Releasing a page keeps the invariant if and only if the caller has reported its changes, or made none. */
  lemma UnpinAllowedIff(w: World, p: PageId, dirty: bool)
    requires WorldInv(w)
    ensures WorldInv(Step(w, UnpinOp(p, dirty))) <==> Allowed(w, UnpinOp(p, dirty))
  {
    var op := UnpinOp(p, dirty);
    if Allowed(w, op) {
      StepKeeps(w, op);
    } else {
      var t := StepPool(w.pool, op);
      assert p in t.table && t.frames[t.table[p]].pin == 0 && !t.frames[t.table[p]].dirty && p in Step(w, op).written;
    }
  }

  /** A release that is not allowed forgets the changes of the page as soon as its frame is evicted. */
  lemma DisallowedReleaseLoses(w: World, p: PageId, dirty: bool, q: PageId)
    requires WorldInv(w) && !Allowed(w, UnpinOp(p, dirty)) && Logical(w.pool, p) != DiskRead(w.pool.disk, p)
    requires q.pageNo != INVALID_PAGE_ID && q !in w.pool.table
    ensures Inv(Step(w, UnpinOp(p, dirty)).pool)
    ensures var u := Step(w, UnpinOp(p, dirty)).pool;
            && p in u.table && Logical(u, p) == Logical(w.pool, p)
            && (VictimOf(u) == Some(u.table[p]) ==> Logical(Fetch(u, q).1, p) == DiskRead(w.pool.disk, p))
  {
    UnpinKeeps(w.pool, p, dirty);
    var u := Step(w, UnpinOp(p, dirty)).pool;
    if VictimOf(u) == Some(u.table[p]) { FetchMiss(u, q); }
  }

  // ----- Inputs on which contents or the page table are lost -----

  /** A changed page released without the dirty mark is forgotten by the next fetch of another page. */
  lemma UnreportedChangeLost(s: Pool, p: PageId, q: PageId, data: Bytes)
    requires Fresh(s) && |s.frames| == 1 && data != DiskRead(s.disk, p)
    requires p != q && p.pageNo != INVALID_PAGE_ID && q.pageNo != INVALID_PAGE_ID
    ensures Inv(s) && Inv(Fetch(s, p).1) && p in Fetch(s, p).1.table
    ensures var a := Write(Fetch(s, p).1, p, data);
            && Inv(a) && CleanOk(a)
            && var u := Unpin(a, p, false).1;
            && Inv(u) && !CleanOk(u) && !VictimSafe(u)
            && Logical(u, p) == data && Logical(Fetch(u, q).1, p) != data
  {
    FreshWorld(s);
    FetchKeeps(s, p);
    OneFrameHolds(s, p);
    var t := Fetch(s, p).1;
    hide Fetch, Fresh, WorldInv;
    WriteKeeps(t, p, data);
    var a := Write(t, p, data);
    UnpinKeeps(a, p, false);
    var u := Unpin(a, p, false).1;
    assert u.frames == [Frame(p, data, false, 0)] && u.lru == [0];
    OneFrameEvicts(u, p, q);
  }

  lemma OneFrameHolds(s: Pool, p: PageId)
    requires Inv(s) && Fresh(s) && |s.frames| == 1
    ensures Fetch(s, p).1 == Pool([Frame(p, DiskRead(s.disk, p), false, 1)], map[p := 0], [], [], s.disk, s.next)
  {
    assert s.free == [0];
  }

  lemma OneFrameEvicts(u: Pool, p: PageId, q: PageId)
    requires Inv(u) && p != q && u.table == map[p := 0] && u.free == [] && u.lru == [0]
    requires |u.frames| == 1 && u.frames[0].id == p && !u.frames[0].dirty
    ensures Logical(Fetch(u, q).1, p) == DiskRead(u.disk, p)
  {
    assert Fetch(u, q).1.table == map[q := 0];
  }

  /** Fetching a page not yet allocated, and then allocating it, maps one page from two frames. */
  lemma StaleCounterBreaks(s: Pool, fd: int)
    requires Fresh(s) && |s.frames| == 2
    ensures Inv(s) && Inv(Fetch(s, PageId(fd, Next(s, fd))).1)
    ensures !Inv(NewPage(Fetch(s, PageId(fd, Next(s, fd))).1, fd).1)
  {
    FreshWorld(s);
    var p := PageId(fd, Next(s, fd));
    FetchKeeps(s, p);
    assert s.free == [0, 1];
    var t := Fetch(s, p).1;
    assert t.free == [1] && t.table == map[p := 0] && Next(t, fd) == p.pageNo;
    NewPageInvIff(t, fd);
  }
}
