/**
 The slotted record file on page views: insert, delete and update, the list of pages with room that
 is threaded through the page headers, and the map of records they implement.
 */
module RecordFile {
  import opened Defs
  import opened PoolState
  import opened Layout

  const RM_NO_PAGE := -1

  /** File header fields and the pages 1 to `numPages` - 1. */
  datatype File = File(recordSize: int, perPage: int, numPages: int, firstFree: int, pages: map<int, PageView>)

  function Count(bits: seq<bool>): (c: nat)
    ensures c <= |bits|
  {
    if bits == [] then 0 else (if bits[0] then 1 else 0) + Count(bits[1..])
  }

  lemma {:induction false} CountUpdate(bits: seq<bool>, i: nat, on: bool)
    requires i < |bits|
    ensures Count(bits[i := on]) == Count(bits) - (if bits[i] then 1 else 0) + (if on then 1 else 0)
  {
    if i == 0 {
      assert bits[i := on][1..] == bits[1..];
    } else {
      assert bits[i := on][1..] == bits[1..][i - 1 := on];
      CountUpdate(bits[1..], i - 1, on);
    }
  }

  lemma {:induction false} CountFull(bits: seq<bool>)
    ensures Count(bits) == |bits| <==> forall i | 0 <= i < |bits| :: bits[i]
    ensures Count(bits) == 0 <==> forall i | 0 <= i < |bits| :: !bits[i]
  {
    if bits != [] {
      CountFull(bits[1..]);
      assert forall i | 0 < i < |bits| :: bits[i] == bits[1..][i - 1];
    }
  }

  /** next_bit: the first position after `curr` with this bit, or the length. */
  function NextBit(bit: bool, bits: seq<bool>, curr: int): (i: int)
    requires -1 <= curr <= |bits|
    ensures i <= |bits| && (curr < |bits| ==> curr < i) && (curr == |bits| ==> i == |bits|)
    ensures i < |bits| ==> bits[i] == bit
    ensures forall j | curr < j < i :: bits[j] != bit
    decreases |bits| - curr
  {
    if curr + 1 >= |bits| then |bits|
    else if bits[curr + 1] == bit then curr + 1
    else NextBit(bit, bits, curr + 1)
  }

  function FirstBit(bit: bool, bits: seq<bool>): int {
    NextBit(bit, bits, -1)
  }

  // ----- Operations -----

  predicate InFile(f: File, rid: Rid) {
    rid.pageNo in f.pages && 0 <= rid.slotNo < f.perPage
    && |f.pages[rid.pageNo].bits| == f.perPage && |f.pages[rid.pageNo].slots| == f.perPage
  }

  /** The bytes of the record at `rid`, if there is one. */
  function Lookup(f: File, rid: Rid): Option<Bytes> {
    if InFile(f, rid) && f.pages[rid.pageNo].bits[rid.slotNo] then Some(f.pages[rid.pageNo].slots[rid.slotNo]) else None
  }

  /** Copy the bytes in, set the bit, count the record, and unlink the page if that filled it. */
  function PutRecord(f: File, rid: Rid, buf: Bytes): File
    requires InFile(f, rid)
  {
    var v := f.pages[rid.pageNo];
    var w := v.(slots := v.slots[rid.slotNo := buf], bits := v.bits[rid.slotNo := true], num := v.num + 1);
    f.(pages := f.pages[rid.pageNo := w], firstFree := if w.num >= f.perPage then w.next else f.firstFree)
  }

  function BlankPage(f: File, next: int): PageView
    requires f.perPage >= 0 && f.recordSize >= 0
  {
    PageView(next, 0, seq(f.perPage, _ => false), seq(f.perPage, _ => seq(f.recordSize, _ => 0)))
  }

  /** create_new_page_handle: a blank page at the end, first in the list of pages with room. */
  function AddPage(f: File): File
    requires f.perPage >= 0 && f.recordSize >= 0
  {
    f.(pages := f.pages[f.numPages := BlankPage(f, f.firstFree)], numPages := f.numPages + 1, firstFree := f.numPages)
  }

  /** create_page_handle: make sure the list of pages with room has a head. */
  function WithRoom(f: File): File
    requires f.perPage >= 0 && f.recordSize >= 0
  {
    if f.firstFree < 0 then AddPage(f) else f
  }

  function InsertRid(f: File): Rid
    requires FileInv(f)
  {
    WithRoomHead(f);
    var g := WithRoom(f);
    Rid(g.firstFree, FirstBit(false, g.pages[g.firstFree].bits))
  }

  /** insert_record without a position. */
  function Insert(f: File, buf: Bytes): File
    requires FileInv(f)
  {
    WithRoomHead(f);
    PutRecord(WithRoom(f), InsertRid(f), buf)
  }

  /** delete_record: clear the bit, link the page in front if it was full, and count down. */
  function DeleteRecord(f: File, rid: Rid): File
    requires InFile(f, rid)
  {
    var v := f.pages[rid.pageNo];
    var full := v.num == f.perPage;
    var w := v.(bits := v.bits[rid.slotNo := false], num := v.num - 1, next := if full then f.firstFree else v.next);
    f.(pages := f.pages[rid.pageNo := w], firstFree := if full then rid.pageNo else f.firstFree)
  }

  function UpdateRecord(f: File, rid: Rid, buf: Bytes): File
    requires InFile(f, rid)
  {
    var v := f.pages[rid.pageNo];
    f.(pages := f.pages[rid.pageNo := v.(slots := v.slots[rid.slotNo := buf])])
  }

  // ----- What every file keeps -----

  ghost predicate PageOk(f: File, v: PageView) {
    |v.bits| == f.perPage && |v.slots| == f.perPage && v.num == Count(v.bits)
  }

  /** Pages are numbered densely from 1, and each counts its set bits. */
  ghost predicate PagesOk(f: File) {
    && f.perPage >= 1 && f.recordSize >= 1 && f.numPages >= 1
    && (forall p :: p in f.pages <==> 1 <= p < f.numPages)
    && (forall p | p in f.pages :: PageOk(f, f.pages[p]))
  }

  /** Following the links from `start` visits exactly `list` and ends in a negative number. */
  ghost predicate Chain(f: File, start: int, list: seq<int>)
    decreases list
  {
    if list == [] then start < 0
    else start == list[0] && start in f.pages && Chain(f, f.pages[start].next, list[1..])
  }

  /** The chain from the file header is acyclic, ends, and lists exactly the pages with room. */
  ghost predicate FreeChain(f: File, list: seq<int>) {
    && Chain(f, f.firstFree, list) && NoDuplicates(list)
    && forall p | p in f.pages :: p in list <==> f.pages[p].num < f.perPage
  }

  ghost predicate FileInv(f: File) {
    PagesOk(f) && exists list :: FreeChain(f, list)
  }

  lemma {:induction false} ChainIn(f: File, start: int, list: seq<int>)
    requires Chain(f, start, list)
    ensures forall p | p in list :: p in f.pages
    decreases list
  {
    if list != [] { ChainIn(f, f.pages[start].next, list[1..]); }
  }

  /** A chain only depends on the links of the pages it visits. */
  lemma {:induction false} ChainSame(f: File, g: File, start: int, list: seq<int>)
    requires Chain(f, start, list)
    requires forall p | p in list && p in f.pages :: p in g.pages && g.pages[p].next == f.pages[p].next
    ensures Chain(g, start, list)
    decreases list
  {
    if list != [] { ChainSame(f, g, f.pages[start].next, list[1..]); }
  }

  lemma WithRoomHead(f: File)
    requires FileInv(f)
    ensures var g := WithRoom(f);
            && g.firstFree in g.pages && |g.pages[g.firstFree].bits| == g.perPage == |g.pages[g.firstFree].slots|
            && var i := FirstBit(false, g.pages[g.firstFree].bits); 0 <= i < g.perPage && InFile(g, Rid(g.firstFree, i))
  {
    var list :| FreeChain(f, list);
    if f.firstFree >= 0 {
      assert list != [] && f.firstFree == list[0] && list[0] in list;
      CountFull(f.pages[f.firstFree].bits);
    }
  }

  // ----- Adding a page -----

  lemma AddPageKeeps(f: File)
    requires FileInv(f)
    ensures FileInv(AddPage(f)) && forall rid :: Lookup(AddPage(f), rid) == Lookup(f, rid)
    ensures AddPage(f).numPages == f.numPages + 1 && AddPage(f).firstFree == f.numPages
  {
    var list :| FreeChain(f, list);
    var g := AddPage(f);
    ChainIn(f, f.firstFree, list);
    ChainSame(f, g, f.firstFree, list);
    CountFull(BlankPage(f, f.firstFree).bits);
    var list' := [f.numPages] + list;
    assert list'[1..] == list;
    assert Chain(g, g.firstFree, list');
    assert FreeChain(g, list');
  }

  // ----- Inserting -----

  /** Positional insert is sound exactly for a clear slot, in a page that stays open or heads the list. */
  predicate CanPut(f: File, rid: Rid)
    requires InFile(f, rid)
  {
    var v := f.pages[rid.pageNo];
    !v.bits[rid.slotNo] && (v.num + 1 < f.perPage || rid.pageNo == f.firstFree)
  }

  lemma PutPages(f: File, rid: Rid, buf: Bytes)
    requires PagesOk(f) && InFile(f, rid)
    ensures PagesOk(PutRecord(f, rid, buf)) <==> !f.pages[rid.pageNo].bits[rid.slotNo]
  {
    var g := PutRecord(f, rid, buf);
    CountUpdate(f.pages[rid.pageNo].bits, rid.slotNo, true);
    assert PageOk(g, g.pages[rid.pageNo]) <==> !f.pages[rid.pageNo].bits[rid.slotNo];
    assert forall p | p in f.pages && p != rid.pageNo :: g.pages[p] == f.pages[p] && PageOk(g, g.pages[p]);
  }

  lemma PutChain(f: File, list: seq<int>, rid: Rid, buf: Bytes)
    requires PagesOk(f) && FreeChain(f, list) && InFile(f, rid) && CanPut(f, rid)
    ensures exists l :: FreeChain(PutRecord(f, rid, buf), l)
  {
    var g, v := PutRecord(f, rid, buf), f.pages[rid.pageNo];
    CountFull(v.bits);
    assert v.num < f.perPage && rid.pageNo in list;
    ChainSame(f, g, f.firstFree, list);
    if v.num + 1 < f.perPage {
      assert FreeChain(g, list);
    } else {
      assert list[0] == rid.pageNo;
      assert forall p | p in list[1..] :: p != rid.pageNo;
      assert list == [list[0]] + list[1..];
      assert FreeChain(g, list[1..]);
    }
  }

  /** A filled page that does not head the list loses the head, which still has room. */
  lemma PutBreaks(f: File, list: seq<int>, rid: Rid, buf: Bytes, l: seq<int>)
    requires PagesOk(f) && FreeChain(f, list) && InFile(f, rid) && !f.pages[rid.pageNo].bits[rid.slotNo]
    requires f.pages[rid.pageNo].num + 1 >= f.perPage && rid.pageNo != f.firstFree
    ensures !FreeChain(PutRecord(f, rid, buf), l)
  {
    var g, v := PutRecord(f, rid, buf), f.pages[rid.pageNo];
    CountFull(v.bits);
    assert v.num < f.perPage && rid.pageNo in list;
    var k :| 0 <= k < |list| && list[k] == rid.pageNo;
    ChainSame(f, g, f.firstFree, list);
    ChainTail(g, g.firstFree, f.firstFree, list, k, l);
    var head := list[0];
    assert head in list && head in f.pages by { ChainIn(f, f.firstFree, list); }
    assert g.pages[head] == f.pages[head] && g.pages[head].num < g.perPage;
  }

  /** A chain that starts where another one continues after position `k` visits none of the first `k` pages. */
  lemma {:induction false} ChainTail(f: File, start': int, start: int, list: seq<int>, k: nat, list': seq<int>)
    requires Chain(f, start, list) && k < |list| && list[k] in f.pages && start' == f.pages[list[k]].next
    requires forall p | p in f.pages :: p >= 0
    ensures Chain(f, start', list') ==> list' == list[k + 1..]
    decreases list
  {
    if k == 0 {
      if Chain(f, start', list') { ChainUnique(f, start', list', list[1..]); }
    } else {
      ChainTail(f, start', f.pages[start].next, list[1..], k - 1, list');
    }
  }

  lemma {:induction false} ChainUnique(f: File, start: int, a: seq<int>, b: seq<int>)
    requires Chain(f, start, a) && Chain(f, start, b) && forall p | p in f.pages :: p >= 0
    ensures a == b
    decreases a
  {
    if a != [] && b != [] {
      ChainUnique(f, f.pages[start].next, a[1..], b[1..]);
      assert a == [a[0]] + a[1..] && b == [b[0]] + b[1..];
    }
  }

  lemma PutKeepsIff(f: File, rid: Rid, buf: Bytes)
    requires FileInv(f) && InFile(f, rid)
    ensures FileInv(PutRecord(f, rid, buf)) <==> CanPut(f, rid)
  {
    var list :| FreeChain(f, list);
    PutPages(f, rid, buf);
    if CanPut(f, rid) {
      PutChain(f, list, rid, buf);
    } else if !f.pages[rid.pageNo].bits[rid.slotNo] {
      forall l ensures !FreeChain(PutRecord(f, rid, buf), l) { PutBreaks(f, list, rid, buf, l); }
    }
  }

  /** A put adds or replaces exactly the one record. */
  lemma PutLookup(f: File, rid: Rid, buf: Bytes, r: Rid)
    requires InFile(f, rid)
    ensures Lookup(PutRecord(f, rid, buf), r) == if r == rid then Some(buf) else Lookup(f, r)
  {
  }

  /** insert_record returns an unused position, adds exactly that record and keeps the file. */
  lemma InsertKeeps(f: File, buf: Bytes)
    requires FileInv(f)
    ensures FileInv(Insert(f, buf)) && Lookup(f, InsertRid(f)) == None
    ensures forall r :: Lookup(Insert(f, buf), r) == if r == InsertRid(f) then Some(buf) else Lookup(f, r)
  {
    if f.firstFree < 0 { AddPageKeeps(f); }
    var g := WithRoom(f);
    WithRoomHead(f);
    var rid := InsertRid(f);
    assert CanPut(g, rid);
    PutKeepsIff(g, rid, buf);
    forall r ensures Lookup(Insert(f, buf), r) == if r == rid then Some(buf) else Lookup(f, r) { PutLookup(g, rid, buf, r); }
  }

  /** insert_record goes to the head of the list, or to a new last page, and there to the first slot without a record. */
  lemma InsertPlace(f: File)
    requires FileInv(f)
    ensures InsertRid(f).pageNo == if f.firstFree >= 0 then f.firstFree else f.numPages
    ensures InsertRid(f).slotNo >= 0 && forall j | 0 <= j < InsertRid(f).slotNo :: Lookup(f, Rid(InsertRid(f).pageNo, j)).Some?
  {
    WithRoomHead(f);
    if f.firstFree >= 0 { assert PageOk(f, f.pages[f.firstFree]); }
  }

  // ----- Deleting and updating -----

  lemma DeletePages(f: File, rid: Rid)
    requires PagesOk(f) && InFile(f, rid)
    ensures PagesOk(DeleteRecord(f, rid)) <==> f.pages[rid.pageNo].bits[rid.slotNo]
  {
    var g := DeleteRecord(f, rid);
    CountUpdate(f.pages[rid.pageNo].bits, rid.slotNo, false);
    assert PageOk(g, g.pages[rid.pageNo]) <==> f.pages[rid.pageNo].bits[rid.slotNo];
    assert forall p | p in f.pages && p != rid.pageNo :: g.pages[p] == f.pages[p] && PageOk(g, g.pages[p]);
  }

  /** delete_record keeps the file exactly when the slot holds a record, and then removes only that record. */
  lemma DeleteKeepsIff(f: File, rid: Rid)
    requires FileInv(f) && InFile(f, rid)
    ensures FileInv(DeleteRecord(f, rid)) <==> Lookup(f, rid).Some?
    ensures forall r :: Lookup(DeleteRecord(f, rid), r) == if r == rid then None else Lookup(f, r)
    ensures var g := DeleteRecord(f, rid); g.pages.Keys == f.pages.Keys && forall p | p in f.pages :: g.pages[p].slots == f.pages[p].slots
  {
    var list :| FreeChain(f, list);
    var g, v := DeleteRecord(f, rid), f.pages[rid.pageNo];
    DeletePages(f, rid);
    if v.bits[rid.slotNo] {
      if v.num == f.perPage {
        assert rid.pageNo !in list;
        ChainSame(f, g, f.firstFree, list);
        var list' := [rid.pageNo] + list;
        assert list'[1..] == list;
        assert FreeChain(g, list');
      } else {
        ChainSame(f, g, f.firstFree, list);
        assert FreeChain(g, list);
      }
    }
  }

  lemma UpdateKeeps(f: File, rid: Rid, buf: Bytes)
    requires FileInv(f) && InFile(f, rid)
    ensures FileInv(UpdateRecord(f, rid, buf))
    ensures forall r :: Lookup(UpdateRecord(f, rid, buf), r) == if r == rid && Lookup(f, rid).Some? then Some(buf) else Lookup(f, r)
    ensures var g := UpdateRecord(f, rid, buf); InFile(g, rid) && g.pages[rid.pageNo].slots[rid.slotNo] == buf
  {
    var list :| FreeChain(f, list);
    var g := UpdateRecord(f, rid, buf);
    ChainSame(f, g, f.firstFree, list);
    assert FreeChain(g, list);
  }

  // ----- Inputs on which the file is broken -----

  /** `f` with records in the first `k` slots of page `p`, put there one after the other. */
  function Filled(f: File, p: int, k: nat, buf: Bytes): (g: File)
    requires p in f.pages && k <= f.perPage == |f.pages[p].bits| == |f.pages[p].slots|
    ensures p in g.pages && g.perPage == f.perPage == |g.pages[p].bits| == |g.pages[p].slots|
  {
    if k == 0 then f else PutRecord(Filled(f, p, k - 1, buf), Rid(p, k - 1), buf)
  }

  /** As long as a slot stays clear, each put is one that may be made. */
  lemma {:induction false} FilledKeeps(f: File, p: int, k: nat, buf: Bytes)
    requires FileInv(f) && p in f.pages && p != f.firstFree && k < f.perPage == |f.pages[p].bits| == |f.pages[p].slots|
    requires f.pages[p].num == 0 && forall i | 0 <= i < f.perPage :: !f.pages[p].bits[i]
    ensures var g := Filled(f, p, k, buf);
            && FileInv(g) && g.firstFree == f.firstFree && g.pages[p].num == k
            && forall i | k <= i < f.perPage :: !g.pages[p].bits[i]
  {
    if k > 0 {
      hide FileInv;
      FilledKeeps(f, p, k - 1, buf);
      var g := Filled(f, p, k - 1, buf);
      assert InFile(g, Rid(p, k - 1)) && CanPut(g, Rid(p, k - 1));
      PutKeepsIff(g, Rid(p, k - 1), buf);
    }
  }

  /**
   Two new pages, and records put into the first of them slot by slot. Every put may be made until the last, which fills
   the page; the page is not the head of the list, and the head, which has room, is lost.
   */
  lemma PutBehindHead(f: File, buf: Bytes)
    requires FileInv(f)
    ensures FileInv(AddPage(f)) && FileInv(AddPage(AddPage(f)))
    ensures var (g, p, last) := (AddPage(AddPage(f)), f.numPages, f.perPage - 1);
            && p in g.pages && g.perPage == f.perPage == |g.pages[p].bits| == |g.pages[p].slots|
            && FileInv(Filled(g, p, last, buf)) && Lookup(Filled(g, p, last, buf), Rid(p, last)) == None
            && !FileInv(Filled(g, p, last + 1, buf))
  {
    AddPageKeeps(f);
    AddPageKeeps(AddPage(f));
    var g, p, last := AddPage(AddPage(f)), f.numPages, f.perPage - 1;
    assert g.pages[p] == AddPage(f).pages[p] == BlankPage(f, f.firstFree);
    hide FileInv;
    FilledKeeps(g, p, last, buf);
    PutKeepsIff(Filled(g, p, last, buf), Rid(p, last), buf);
  }

  /** Deleting from a blank page miscounts it. */
  lemma DeleteFromBlank(f: File)
    requires FileInv(f)
    ensures FileInv(AddPage(f))
    ensures var (g, rid) := (AddPage(f), Rid(f.numPages, 0)); InFile(g, rid) && !FileInv(DeleteRecord(g, rid))
  {
    AddPageKeeps(f);
    DeleteKeepsIff(AddPage(f), Rid(f.numPages, 0));
  }
}
