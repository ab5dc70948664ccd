/** The index file header and its bytes. */
module IxHeader {
  import opened Defs
  import opened PoolState
  import opened Layout
  import opened Buffers

  /** A header's fields as a value; column types are their enumeration codes. */
  datatype Hdr = Hdr(totLen: int, firstFree: int, numPages: int, rootPage: int, colNum: int, colTypes: seq<int>,
                     colLens: seq<int>, colTotLen: int, btreeOrder: int, keysSize: int, firstLeaf: int, lastLeaf: int)

  /** The integers written, in order. */
  function HdrInts(h: Hdr): (xs: seq<int>)
    requires 0 <= h.colNum <= |h.colTypes| && h.colNum <= |h.colLens|
    ensures |xs| == 10 + 2 * h.colNum
  {
    [h.totLen, h.firstFree, h.numPages, h.rootPage, h.colNum] + h.colTypes[..h.colNum] + h.colLens[..h.colNum] +
    [h.colTotLen, h.btreeOrder, h.keysSize, h.firstLeaf, h.lastLeaf]
  }

  /** The number of bytes the fields take. */
  function TotLen(colNum: int): int {
    4 * 4 + 4 * 6 + (4 + 4) * colNum
  }

  /** Conversion to a 32-bit int. */
  function ToInt32(v: int): int {
    var u := v % TWO_32;
    if u < 0x8000_0000 then u else u - TWO_32
  }

  /** The bytes hold a header: its column count is not negative and its recorded length is the length of its fields. */
  predicate Readable(src: Bytes) {
    && 20 <= |src|
    && var head := IntsAt(src, 0, 5);
       0 <= head[4] && head[0] == TotLen(head[4]) <= |src|
  }

  /** Reading appends the columns to those the object has already. */
  function Decoded(into: Hdr, src: Bytes): Hdr
    requires Readable(src)
  {
    var head := IntsAt(src, 0, 5);
    var n := head[4];
    var tail := IntsAt(src, 20 + 8 * n, 5);
    Hdr(head[0], head[1], head[2], head[3], n,
        into.colTypes + IntsAt(src, 20, n), into.colLens + IntsAt(src, 20 + 4 * n, n),
        tail[0], tail[1], tail[2], tail[3], tail[4])
  }

  lemma DecodedParts(into: Hdr, src: Bytes, head: seq<int>, tail: seq<int>)
    requires Readable(src) && head == [] + IntsAt(src, 0, 5) && tail == [] + IntsAt(src, 20 + 8 * head[4], 5)
    ensures var n := head[4];
            Decoded(into, src) == Hdr(head[0], head[1], head[2], head[3], n, into.colTypes + IntsAt(src, 20, n),
                                      into.colLens + IntsAt(src, 20 + 4 * n, n), tail[0], tail[1], tail[2], tail[3], tail[4])
  {
    hide IntsAt;
  }

  predicate Sized(h: Hdr) {
    h.colNum == |h.colTypes| == |h.colLens| && h.totLen == TotLen(h.colNum)
  }

  /** A header as create_index makes it, with every field in the range of its type. */
  predicate Complete(h: Hdr) {
    && Sized(h)
    && forall i | 0 <= i < |HdrInts(h)| :: IsInt32(HdrInts(h)[i])
  }

  /** The bytes begin with these integers. */
  ghost predicate Begins(src: Bytes, xs: seq<int>) {
    4 * |xs| <= |src| && forall k | 0 <= k < |xs| :: IntAt(src, 4 * k) == xs[k]
  }

  lemma {:induction false} BeginsSlice(src: Bytes, xs: seq<int>, k: nat, n: nat)
    requires Begins(src, xs) && k + n <= |xs|
    ensures IntsAt(src, 4 * k, n) == xs[k..k + n]
  {
    if n > 0 {
      BeginsSlice(src, xs, k, n - 1);
      assert IntAt(src, 4 * (k + n - 1)) == xs[k + n - 1];
      assert xs[k..k + n] == xs[k..k + n - 1] + [xs[k + n - 1]];
    }
  }

  lemma WrittenBegins(h: Hdr, after: Bytes)
    requires Complete(h)
    ensures Begins(IntsBytes(HdrInts(h)) + after, HdrInts(h))
  {
    hide IntAt, HdrInts;
    var xs := HdrInts(h);
    assert [] + IntsBytes(xs) + after == IntsBytes(xs) + after;
    forall k | 0 <= k < |xs| ensures IntAt(IntsBytes(xs) + after, 4 * k) == xs[k] {
      IntReadsBack([], xs, after, k);
    }
  }

  lemma BeginsLong(src: Bytes, xs: seq<int>, n: int)
    requires Begins(src, xs) && |xs| == 10 + 2 * n
    ensures TotLen(n) <= |src|
  {
  }

  lemma BeginsEnds(h: Hdr, src: Bytes)
    requires h.colNum == |h.colTypes| == |h.colLens| && Begins(src, HdrInts(h))
    ensures TotLen(h.colNum) <= |src|
    ensures IntsAt(src, 0, 5) == [h.totLen, h.firstFree, h.numPages, h.rootPage, h.colNum]
    ensures IntsAt(src, 20 + 8 * h.colNum, 5) == [h.colTotLen, h.btreeOrder, h.keysSize, h.firstLeaf, h.lastLeaf]
  {
    hide IntAt, IntsAt, Begins, HdrInts;
    var xs, n := HdrInts(h), h.colNum;
    BeginsLong(src, xs, n);
    BeginsSlice(src, xs, 0, 5);
    BeginsSlice(src, xs, 5 + 2 * n, 5);
    HdrSlices(h);
  }

  lemma BeginsColumns(h: Hdr, src: Bytes)
    requires h.colNum == |h.colTypes| == |h.colLens| && Begins(src, HdrInts(h)) && TotLen(h.colNum) <= |src|
    ensures IntsAt(src, 20, h.colNum) == h.colTypes && IntsAt(src, 20 + 4 * h.colNum, h.colNum) == h.colLens
  {
    hide IntAt, IntsAt, Begins, HdrInts;
    var xs, n := HdrInts(h), h.colNum;
    BeginsSlice(src, xs, 5, n);
    BeginsSlice(src, xs, 5 + n, n);
    HdrSlices(h);
  }

  /** Reading bytes that begin as a header's do. */
  lemma BeginsDecoded(h: Hdr, into: Hdr, src: Bytes)
    requires Sized(h) && Begins(src, HdrInts(h))
    ensures Readable(src)
    ensures Decoded(into, src) == h.(colTypes := into.colTypes + h.colTypes, colLens := into.colLens + h.colLens)
  {
    hide IntAt, IntsAt, Begins, HdrInts;
    BeginsEnds(h, src);
    BeginsColumns(h, src);
  }

  lemma HdrSlices(h: Hdr)
    requires h.colNum == |h.colTypes| == |h.colLens|
    ensures var xs, n := HdrInts(h), h.colNum;
            && xs[0..5] == [h.totLen, h.firstFree, h.numPages, h.rootPage, n]
            && xs[5..5 + n] == h.colTypes && xs[5 + n..5 + n + n] == h.colLens
            && xs[5 + 2 * n..5 + 2 * n + 5] == [h.colTotLen, h.btreeOrder, h.keysSize, h.firstLeaf, h.lastLeaf]
  {
  }

  /** A written header reads back as it was exactly when it is read into an object that holds no columns yet. */
  lemma HdrReadsBackIff(h: Hdr, into: Hdr, after: Bytes)
    requires Complete(h)
    ensures |IntsBytes(HdrInts(h))| == h.totLen
    ensures Readable(IntsBytes(HdrInts(h)) + after)
    ensures Decoded(into, IntsBytes(HdrInts(h)) + after) == h <==> into.colTypes == [] && into.colLens == []
  {
    WrittenBegins(h, after);
    BeginsDecoded(h, into, IntsBytes(HdrInts(h)) + after);
    hide Decoded, Readable, IntsBytes, Begins;
    assert [] + h.colTypes == h.colTypes && [] + h.colLens == h.colLens;
  }

  /** A written header is this list of four-byte numbers. */
  lemma HdrNumbers(h: Hdr)
    requires Complete(h)
    ensures var (xs, b) := (HdrInts(h), IntsBytes(HdrInts(h)));
            |b| == 4 * |xs| && forall k | 0 <= k < |xs| :: NumberAt(b, 4 * k) == xs[k]
  {
    WrittenBegins(h, []);
    hide IntsBytes, HdrInts, IntAt, NumberAt, Complete;
    var (xs, b) := (HdrInts(h), IntsBytes(HdrInts(h)));
    assert b + [] == b;
    forall k | 0 <= k < |xs| ensures NumberAt(b, 4 * k) == xs[k] { IntIsNumber(b, 4 * k); }
  }

  /** The order of the numbers: five fields, the types of all columns, the lengths of all columns, five fields. */
  lemma HdrOrder(h: Hdr, i: nat)
    requires h.colNum == |h.colTypes| == |h.colLens| && i < h.colNum
    ensures var (xs, n) := (HdrInts(h), h.colNum);
            && |xs| == 10 + 2 * n && xs[0] == h.totLen && xs[1] == h.firstFree && xs[2] == h.numPages && xs[3] == h.rootPage && xs[4] == n
            && xs[5 + i] == h.colTypes[i] && xs[5 + n + i] == h.colLens[i]
            && xs[5 + 2 * n] == h.colTotLen && xs[6 + 2 * n] == h.btreeOrder && xs[7 + 2 * n] == h.keysSize
            && xs[8 + 2 * n] == h.firstLeaf && xs[9 + 2 * n] == h.lastLeaf
  {
    HdrSlices(h);
    hide HdrInts;
    var (xs, n) := (HdrInts(h), h.colNum);
    EndsAre(xs, h);
    assert xs[5 + i] == xs[5..5 + n][i] && xs[5 + n + i] == xs[5 + n..5 + n + n][i];
  }

  lemma EndsAre(xs: seq<int>, h: Hdr)
    requires h.colNum >= 0 && |xs| == 10 + 2 * h.colNum && xs[0..5] == [h.totLen, h.firstFree, h.numPages, h.rootPage, h.colNum]
    requires var n := h.colNum; xs[5 + 2 * n..5 + 2 * n + 5] == [h.colTotLen, h.btreeOrder, h.keysSize, h.firstLeaf, h.lastLeaf]
    ensures xs[0] == h.totLen && xs[1] == h.firstFree && xs[2] == h.numPages && xs[3] == h.rootPage && xs[4] == h.colNum
    ensures var n := h.colNum;
            && xs[5 + 2 * n] == h.colTotLen && xs[6 + 2 * n] == h.btreeOrder && xs[7 + 2 * n] == h.keysSize
            && xs[8 + 2 * n] == h.firstLeaf && xs[9 + 2 * n] == h.lastLeaf
  {
    var head, tail := xs[0..5], xs[5 + 2 * h.colNum..5 + 2 * h.colNum + 5];
    assert head[0] == xs[0] && head[1] == xs[1] && head[2] == xs[2] && head[3] == xs[3] && head[4] == xs[4];
    assert forall k | 0 <= k < 5 :: tail[k] == xs[5 + 2 * h.colNum + k];
    assert tail[0] == xs[5 + 2 * h.colNum] && tail[1] == xs[6 + 2 * h.colNum] && tail[2] == xs[7 + 2 * h.colNum]
        && tail[3] == xs[8 + 2 * h.colNum] && tail[4] == xs[9 + 2 * h.colNum];
  }

  /** Reading a header into the object it was written from doubles its columns. */
  lemma ReadTwiceDoubles(h: Hdr)
    requires Complete(h) && h.colNum > 0
    ensures Readable(IntsBytes(HdrInts(h)) + []) && Decoded(h, IntsBytes(HdrInts(h)) + []) != h
  {
    HdrReadsBackIff(h, h, []);
  }

  class IxFileHdr {
    var totLen: int
    var firstFree: int
    var numPages: int
    var rootPage: int
    var colNum: int
    var colTypes: seq<int>
    var colLens: seq<int>
    var colTotLen: int
    var btreeOrder: int
    var keysSize: int
    var firstLeaf: int
    var lastLeaf: int

    ghost function Value(): Hdr
      reads this
    {
      Hdr(totLen, firstFree, numPages, rootPage, colNum, colTypes, colLens, colTotLen, btreeOrder, keysSize, firstLeaf, lastLeaf)
    }

    /** A fresh header, with no columns. */
    constructor ()
      ensures totLen == 0 && colNum == 0 && colTypes == [] && colLens == []
    {
      totLen, colNum, colTypes, colLens := 0, 0, [], [];
    }

    /** The recorded length wraps to 32 bits, and is the length of the fields exactly when that fits. */
    method UpdateTotLen()
      modifies this`totLen
      ensures totLen == ToInt32(TotLen(colNum)) && (totLen == TotLen(colNum) <==> IsInt32(TotLen(colNum)))
    {
      totLen := 0;
      totLen := ToInt32(totLen + 4 * 4 + 4 * 6);
      totLen := ToInt32(totLen + 4 * colNum + 4 * colNum);
    }

    /** Writes exactly the recorded length. */
    method Serialize(dest: array<Byte>)
      requires 0 <= colNum <= |colTypes| && colNum <= |colLens| && totLen == TotLen(colNum) <= dest.Length
      modifies dest
      ensures dest[..totLen] == IntsBytes(HdrInts(Value()))
      ensures forall k | totLen <= k < dest.Length :: dest[k] == old(dest[k])
    {
      hide IntsBytes;
      var head := [totLen, firstFree, numPages, rootPage, colNum];
      var tail := [colTotLen, btreeOrder, keysSize, firstLeaf, lastLeaf];
      var offset := PutInts(dest, 0, head, 5, []);
      assert [] + head[..5] == head && tail[..5] == tail;
      offset := PutInts(dest, offset, colTypes, colNum, head);
      offset := PutInts(dest, offset, colLens, colNum, head + colTypes[..colNum]);
      offset := PutInts(dest, offset, tail, 5, head + colTypes[..colNum] + colLens[..colNum]);
    }

    method Deserialize(src: Bytes)
      requires Readable(src)
      modifies this
      ensures Value() == Decoded(old(Value()), src)
    {
      hide IntsAt, Decoded;
      ghost var into := Value();
      var head, types, lens, tail := GetFields(src, colTypes, colLens);
      totLen, firstFree, numPages, rootPage, colNum := head[0], head[1], head[2], head[3], head[4];
      colTypes, colLens := types, lens;
      colTotLen, btreeOrder, keysSize, firstLeaf, lastLeaf := tail[0], tail[1], tail[2], tail[3], tail[4];
      DecodedParts(into, src, head, tail);
    }
  }

  /** Goes through the buffer once, pushing the columns behind `types` and `lens`. */
  method GetFields(src: Bytes, types: seq<int>, lens: seq<int>)
    returns (head: seq<int>, types': seq<int>, lens': seq<int>, tail: seq<int>)
    requires Readable(src)
    ensures head == [] + IntsAt(src, 0, 5) && tail == [] + IntsAt(src, 20 + 8 * head[4], 5)
    ensures types' == types + IntsAt(src, 20, head[4]) && lens' == lens + IntsAt(src, 20 + 4 * head[4], head[4])
  {
    hide IntsAt;
    var offset;
    head, offset := GetInts(src, 0, 5, []);
    types', offset := GetInts(src, offset, head[4], types);
    lens', offset := GetInts(src, offset, head[4], lens);
    tail, offset := GetInts(src, offset, 5, []);
  }
}
