/** The log record of an insertion and its bytes. */
module LogRecords {
  import opened Defs
  import opened PoolState
  import opened Layout
  import opened Buffers

  const LOG_HEADER_SIZE := 20
  const LOG_INSERT := 1
  const INVALID_LSN := -1

  /** A record as a value: the log header, then the inserted bytes, where they went, and the table's name. */
  datatype LogRec = LogRec(logType: int, lsn: int, totLen: int, tid: int, prevLsn: int,
                           value: Bytes, rid: Rid, tableName: Bytes)

  /** The record of inserting `value` at `rid`; its total length is a 32-bit unsigned sum. */
  function NewRec(tid: int, value: Bytes, rid: Rid, tableName: Bytes): LogRec {
    LogRec(LOG_INSERT, INVALID_LSN, Unsigned32(LOG_HEADER_SIZE + 4 + |value| + 8 + 8 + |tableName|), tid, INVALID_LSN,
           value, rid, tableName)
  }

  function Front(r: LogRec): seq<int> {
    [r.logType, r.lsn, r.totLen, r.tid, r.prevLsn, |r.value|]
  }

  function Place(r: LogRec): seq<int> {
    [r.rid.pageNo, r.rid.slotNo]
  }

  function RecBytes(r: LogRec): (b: Bytes)
    ensures |b| == 40 + |r.value| + |r.tableName|
  {
    IntsBytes(Front(r)) + r.value + IntsBytes(Place(r)) + SizeBytes(|r.tableName|) + r.tableName
  }

  /** The recorded length is the number of bytes written exactly when that number fits 32 bits. */
  lemma TotLenIff(tid: int, value: Bytes, rid: Rid, tableName: Bytes)
    ensures var r := NewRec(tid, value, rid, tableName);
            |RecBytes(r)| == r.totLen <==> |value| + |tableName| < TWO_32 - 40
  {
  }

  /** The fields are in the ranges of their types. */
  predicate InRange(r: LogRec) {
    && IsInt32(r.logType) && IsInt32(r.lsn) && 0 <= r.totLen < TWO_32 && IsInt32(r.tid) && IsInt32(r.prevLsn)
    && IsInt32(|r.value|) && IsInt32(r.rid.pageNo) && IsInt32(r.rid.slotNo) && |r.tableName| < TWO_32 * TWO_32
  }

  /** A table name just below 4 GiB, which its size can express, makes the recorded length wrap to 0. */
  lemma LongNameWraps(tid: int, rid: Rid)
    requires IsInt32(tid) && IsInt32(rid.pageNo) && IsInt32(rid.slotNo)
    ensures var r := NewRec(tid, [], rid, seq(TWO_32 - 40, _ => 0)); InRange(r) && r.totLen == 0 < |RecBytes(r)|
  {
    TotLenIff(tid, [], rid, seq(TWO_32 - 40, _ => 0));
  }

  predicate RecReadable(src: Bytes) {
    && 24 <= |src| && 0 <= IntAt(src, 20) && 40 + IntAt(src, 20) <= |src|
    && 0 <= SizeAt(src, 32 + IntAt(src, 20)) <= |src| - 40 - IntAt(src, 20)
  }

  function RecDecoded(src: Bytes): LogRec
    requires RecReadable(src)
  {
    var size := IntAt(src, 20);
    LogRec(IntAt(src, 0), IntAt(src, 4), Unsigned32(IntAt(src, 8)), IntAt(src, 12), IntAt(src, 16),
           Range(src, 24, size), Rid(IntAt(src, 24 + size), IntAt(src, 28 + size)),
           Range(src, 40 + size, SizeAt(src, 32 + size)))
  }

  lemma FrontReadsBack(r: LogRec, after: Bytes)
    requires InRange(r)
    ensures var src := IntsBytes(Front(r)) + after;
            && IntAt(src, 0) == r.logType && IntAt(src, 4) == r.lsn && Unsigned32(IntAt(src, 8)) == r.totLen
            && IntAt(src, 12) == r.tid && IntAt(src, 16) == r.prevLsn && IntAt(src, 20) == |r.value|
  {
    hide IntsBytes, IntAt;
    var xs := Front(r);
    assert [] + IntsBytes(xs) + after == IntsBytes(xs) + after;
    IntReadsBack([], xs, after, 0);
    IntReadsBack([], xs, after, 1);
    IntInPlace([], xs, after, 2);
    WordReadsBack(xs[2]);
    IntReadsBack([], xs, after, 3);
    IntReadsBack([], xs, after, 4);
    IntReadsBack([], xs, after, 5);
  }

  lemma PlaceReadsBack(before: Bytes, r: LogRec, after: Bytes)
    requires InRange(r)
    ensures var src := before + IntsBytes(Place(r)) + after;
            IntAt(src, |before|) == r.rid.pageNo && IntAt(src, |before| + 4) == r.rid.slotNo
  {
    hide IntsBytes, IntAt;
    IntReadsBack(before, Place(r), after, 0);
    IntReadsBack(before, Place(r), after, 1);
  }

  /** The five parts of a written record, bracketed for reading each of them. */
  lemma Brackets(a: Bytes, b: Bytes, c: Bytes, d: Bytes, e: Bytes, f: Bytes)
    ensures var src := a + b + c + d + e + f;
            src == a + (b + c + d + e + f) == a + b + (c + d + e + f) == a + b + c + (d + e + f)
            == a + b + c + d + (e + f)
  {
  }

  /** A written record reads back as it was, into any object and whatever follows it in the buffer. */
  lemma RecReadsBack(r: LogRec, after: Bytes)
    requires InRange(r)
    ensures RecReadable(RecBytes(r) + after) && RecDecoded(RecBytes(r) + after) == r
  {
    assert |r.tableName| < TWO_32 * TWO_32;
    hide IntsBytes, IntAt, SizeBytes, SizeAt, Range, InRange, Front, Place;
    var (a, c, d) := (IntsBytes(Front(r)), IntsBytes(Place(r)), SizeBytes(|r.tableName|));
    var (b, e) := (r.value, r.tableName);
    var src := RecBytes(r) + after;
    Brackets(a, b, c, d, e, after);
    FrontReadsBack(r, b + c + d + e + after);
    RangeMiddle(a, b, c + d + e + after);
    PlaceReadsBack(a + b, r, d + e + after);
    SizeReadsBack(a + b + c, |e|, e + after);
    RangeMiddle(a + b + c + d, e, after);
  }

  /** Where everything is in a written record. */
  lemma RecLayout(r: LogRec)
    requires InRange(r)
    ensures var (b, n) := (RecBytes(r), |r.value|);
            && NumberAt(b, 0) == r.logType && NumberAt(b, 4) == r.lsn && Unsigned(b[8..12]) == r.totLen
            && NumberAt(b, 12) == r.tid && NumberAt(b, 16) == r.prevLsn && NumberAt(b, 20) == n && b[24..24 + n] == r.value
            && NumberAt(b, 24 + n) == r.rid.pageNo && NumberAt(b, 28 + n) == r.rid.slotNo
            && Unsigned(b[32 + n..40 + n]) == |r.tableName| && b[40 + n..] == r.tableName
  {
    assert |r.tableName| < TWO_32 * TWO_32;
    hide IntsBytes, IntAt, SizeBytes, SizeAt, InRange, Front, Place, NumberAt, Unsigned, Unsigned32;
    var (a, c, d) := (IntsBytes(Front(r)), IntsBytes(Place(r)), SizeBytes(|r.tableName|));
    var (v, e) := (r.value, r.tableName);
    var (b, n) := (RecBytes(r), |v|);
    Brackets(a, v, c, d, e, []);
    assert b + [] == b && e + [] == e;
    FrontReadsBack(r, v + c + d + e + []);
    FrontNumbers(b);
    RangeMiddle(a, v, c + d + e + []);
    PlaceReadsBack(a + v, r, d + e + []);
    IntIsNumber(b, 24 + n);
    IntIsNumber(b, 28 + n);
    SizeReadsBack(a + v + c, |e|, e + []);
    SizeIsNumber(b, 32 + n);
    RangeMiddle(a + v + c + d, e, []);
  }

  lemma FrontNumbers(b: Bytes)
    requires |b| >= 24
    ensures IntAt(b, 0) == NumberAt(b, 0) && IntAt(b, 4) == NumberAt(b, 4) && Unsigned32(IntAt(b, 8)) == Unsigned(b[8..12])
    ensures IntAt(b, 12) == NumberAt(b, 12) && IntAt(b, 16) == NumberAt(b, 16) && IntAt(b, 20) == NumberAt(b, 20)
  {
    hide IntAt, NumberAt, Unsigned, Unsigned32;
    IntIsNumber(b, 0);
    IntIsNumber(b, 4);
    IntIsNumber(b, 8);
    IntIsNumber(b, 12);
    IntIsNumber(b, 16);
    IntIsNumber(b, 20);
  }

  class InsertLogRecord {
    var logType: int
    var lsn: int
    var totLen: int
    var tid: int
    var prevLsn: int
    var value: Bytes
    var rid: Rid
    var tableName: Bytes

    ghost function Value(): LogRec
      reads this
    {
      LogRec(logType, lsn, totLen, tid, prevLsn, value, rid, tableName)
    }

    constructor (tid: int, value: Bytes, rid: Rid, tableName: Bytes)
      ensures Value() == NewRec(tid, value, rid, tableName)
      ensures logType == 1 && lsn == -1 && prevLsn == -1
      ensures this.tid == tid && this.value == value && this.rid == rid && this.tableName == tableName
    {
      logType, lsn, prevLsn := LOG_INSERT, INVALID_LSN, INVALID_LSN;
      this.tid, this.value, this.rid, this.tableName := tid, value, rid, tableName;
      var len := Unsigned32(LOG_HEADER_SIZE + 4);
      len := Unsigned32(len + |value|);
      len := Unsigned32(len + 8);
      totLen := Unsigned32(len + 8 + |tableName|);
    }

    method Serialize(dest: array<Byte>)
      requires |RecBytes(Value())| <= dest.Length
      modifies dest
      ensures dest[..|RecBytes(Value())|] == RecBytes(Value())
      ensures forall k | |RecBytes(Value())| <= k < dest.Length :: dest[k] == old(dest[k])
    {
      hide IntsBytes, SizeBytes;
      ghost var r := Value();
      var front, place := [logType, lsn, totLen, tid, prevLsn, |value|], [rid.pageNo, rid.slotNo];
      var offset := PutInts(dest, 0, front, 6, []);
      assert [] + front[..6] == front == Front(r);
      ghost var done := IntsBytes(front);
      offset := Put(dest, offset, value, done);
      done := done + value;
      offset := Put(dest, offset, Encode32(rid.pageNo) + Encode32(rid.slotNo), done);
      PlaceBytes(rid);
      done := done + IntsBytes(place);
      offset := Put(dest, offset, SizeBytes(|tableName|), done);
      done := done + SizeBytes(|tableName|);
      offset := Put(dest, offset, tableName, done);
    }

    method Deserialize(src: Bytes)
      requires RecReadable(src)
      modifies this
      ensures Value() == RecDecoded(src)
    {
      hide IntAt, SizeAt, Range;
      logType, lsn, totLen := IntAt(src, 0), IntAt(src, 4), Unsigned32(IntAt(src, 8));
      tid, prevLsn := IntAt(src, 12), IntAt(src, 16);
      value := Range(src, 24, IntAt(src, 20));
      var offset := LOG_HEADER_SIZE + |value| + 4;
      rid := Rid(IntAt(src, offset), IntAt(src, offset + 4));
      offset := offset + 8;
      var size := SizeAt(src, offset);
      offset := offset + 8;
      tableName := Range(src, offset, size);
    }
  }

  lemma PlaceBytes(rid: Rid)
    ensures Encode32(rid.pageNo) + Encode32(rid.slotNo) == IntsBytes([rid.pageNo, rid.slotNo])
  {
    hide Encode32;
    IntsAppend([], rid.pageNo);
    IntsAppend([rid.pageNo], rid.slotNo);
    assert [] + [rid.pageNo] == [rid.pageNo] && [rid.pageNo] + [rid.slotNo] == [rid.pageNo, rid.slotNo];
  }
}
