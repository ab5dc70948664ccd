/**
 Bytes of a record page: 4-byte integers, the slot bitmap, the slots, and the capacity formula.
 */
module Layout {
  import opened Defs
  import opened PoolState

  // ----- Ranges of a byte string -----

  function Range(b: Bytes, off: nat, len: nat): (r: Bytes)
    requires off + len <= |b|
    ensures |r| == len
  {
    b[off..off + len]
  }

  function Splice(b: Bytes, off: nat, part: Bytes): (r: Bytes)
    requires off + |part| <= |b|
    ensures |r| == |b|
  {
    b[..off] + part + b[off + |part|..]
  }

  lemma SpliceSame(b: Bytes, off: nat, part: Bytes)
    requires off + |part| <= |b|
    ensures Range(Splice(b, off, part), off, |part|) == part
  {
  }

  lemma SpliceOther(b: Bytes, off: nat, part: Bytes, off': nat, len: nat)
    requires off + |part| <= |b| && off' + len <= |b|
    requires off' + len <= off || off + |part| <= off'
    ensures Range(Splice(b, off, part), off', len) == Range(b, off', len)
  {
    var s := Splice(b, off, part);
    forall i | off' <= i < off' + len ensures s[i] == b[i] {
      if i < off { assert s[i] == b[..off][i]; } else { assert s[i] == b[off + |part|..][i - off - |part|]; }
    }
  }

  // ----- Four-byte integers, least significant byte first, two's complement -----

  const TWO_32 := 0x1_0000_0000

  function Encode32(v: int): (b: Bytes)
    ensures |b| == 4
  {
    var u := v % TWO_32;
    [u % 256, (u / 256) % 256, (u / 65536) % 256, (u / 16777216) % 256]
  }

  function Decode32(b: Bytes): (v: int)
    requires |b| == 4
    ensures IsInt32(v)
  {
    var u: int := b[0] as int + 256 * b[1] as int + 65536 * b[2] as int + 16777216 * b[3] as int;
    if u < 0x8000_0000 then u else u - TWO_32
  }

  lemma ByteSum(u: int)
    requires 0 <= u < TWO_32
    ensures u == u % 256 + 256 * ((u / 256) % 256) + 65536 * ((u / 65536) % 256) + 16777216 * ((u / 16777216) % 256)
  {
    var a := u / 256;
    var b := a / 256;
    var c := b / 256;
    assert u == 256 * a + u % 256 && a == 256 * b + a % 256 && b == 256 * c + b % 256;
    assert u / 65536 == b;
    assert u / 16777216 == c;
    assert 0 <= c < 256;
  }

  lemma Int32RoundTrip(v: int)
    ensures Decode32(Encode32(v)) == v <==> IsInt32(v)
  {
    ByteSum(v % TWO_32);
  }

  /** The number that bytes stand for, the least significant first. */
  function Unsigned(b: Bytes): (n: nat) {
    if b == [] then 0 else b[0] + 256 * Unsigned(b[1..])
  }

  /** The signed 32-bit number in the four bytes at `off`. */
  function NumberAt(b: Bytes, off: nat): int
    requires off + 4 <= |b|
  {
    var u := Unsigned(b[off..off + 4]);
    if u < 0x8000_0000 then u else u - TWO_32
  }

  lemma UnsignedFour(b: Bytes)
    requires |b| == 4
    ensures Unsigned(b) == b[0] as int + 256 * b[1] as int + 65536 * b[2] as int + 16777216 * b[3] as int
  {
    assert b[1..][1..] == b[2..] && b[2..][1..] == b[3..] && b[3..][1..] == [];
    assert Unsigned(b[3..]) == b[3];
    assert Unsigned(b[2..]) == b[2] as int + 256 * b[3] as int;
    assert Unsigned(b[1..]) == b[1] as int + 256 * b[2] as int + 65536 * b[3] as int;
  }

  /** The four bytes of an integer are its residue in base 256, and they are read as the signed number they stand for. */
  lemma LittleEndian(v: int, b: Bytes, off: nat)
    requires off + 4 <= |b|
    ensures Unsigned(Encode32(v)) == v % TWO_32
    ensures Decode32(b[off..off + 4]) == NumberAt(b, off)
  {
    UnsignedFour(b[off..off + 4]);
    UnsignedFour(Encode32(v));
    ByteSum(v % TWO_32);
  }

  // ----- One byte of the bitmap, highest bit first -----

  function Weight(k: nat): (w: int)
    requires k < 8
    ensures w > 0
  {
    if k == 0 then 128 else if k == 1 then 64 else if k == 2 then 32 else if k == 3 then 16
    else if k == 4 then 8 else if k == 5 then 4 else if k == 6 then 2 else 1
  }

  predicate BitOf(b: Byte, k: nat)
    requires k < 8
  {
    (b / Weight(k)) % 2 == 1
  }

  /** The byte with bit `k` or-ed in, or masked out. */
  function WithBit(b: Byte, k: nat, on: bool): Byte
    requires k < 8
  {
    if BitOf(b, k) == on then b else if on then b + Weight(k) else b - Weight(k)
  }

  lemma WithBitMeaning(b: Byte, k: nat, on: bool, j: nat)
    requires k < 8 && j < 8
    ensures BitOf(WithBit(b, k, on), j) == if j == k then on else BitOf(b, j)
    decreases 8 - k
  {
    var c := WithBit(b, k, on);
    WithBitHalves(b, k, on);
    hide Weight, WithBit;
    if k < 7 && j < 7 {
      Halve(b, j);
      Halve(c, j);
      WithBitMeaning(b / 2, k + 1, on, j + 1);
    } else if j < 7 {
      Halve(b, j);
      Halve(c, j);
    } else {
      LowBit(b);
      LowBit(c);
    }
  }

  /** Setting a bit either leaves the lowest bit alone and acts on the rest, or acts on the lowest bit only. */
  lemma WithBitHalves(b: Byte, k: nat, on: bool)
    requires k < 8
    ensures k < 7 ==> WithBit(b, k, on) / 2 == WithBit(b / 2, k + 1, on) && WithBit(b, k, on) % 2 == b % 2
    ensures k == 7 ==> WithBit(b, k, on) / 2 == b / 2 && (WithBit(b, k, on) % 2 == 1 <==> on)
  {
    if k < 7 { Halve(b, k); }
  }

  lemma LowBit(b: Byte)
    ensures BitOf(b, 7) <==> b % 2 == 1
  {
  }

  lemma Halve(b: Byte, k: nat)
    requires k < 7
    ensures Weight(k) == 2 * Weight(k + 1) && BitOf(b, k) == BitOf(b / 2, k + 1)
  {
  }

  // ----- Capacity -----

  const BITMAP_WIDTH := 8
  const FILE_HDR_SIZE := 20
  const RM_MAX_RECORD_SIZE := 512

  /** Slots per page, as create_file computes it. */
  function Capacity(pageSize: int, hdrSize: int, recordSize: int): int
    requires recordSize >= 1
  {
    (BITMAP_WIDTH * (pageSize - 1 - hdrSize) + 1) / (1 + recordSize * BITMAP_WIDTH)
  }

  function BitmapSize(n: int): int {
    (n + BITMAP_WIDTH - 1) / BITMAP_WIDTH
  }

  /** Header, bitmap and all slots fit the page; and there is a slot exactly when one record could fit at all. */
  lemma CapacityFits(pageSize: int, hdrSize: int, recordSize: int)
    requires 0 <= hdrSize < pageSize && recordSize >= 1
    ensures var n := Capacity(pageSize, hdrSize, recordSize);
            n >= 0 && hdrSize + BitmapSize(n) + n * recordSize <= pageSize && (n >= 1 <==> recordSize <= pageSize - 1 - hdrSize)
    ensures IsQuotient(8 * (pageSize - 1 - hdrSize) + 1, 1 + 8 * recordSize, Capacity(pageSize, hdrSize, recordSize))
  {
    CapacityIs(pageSize, hdrSize, recordSize);
    hide IsQuotient;
    var room, unit := pageSize - 1 - hdrSize, 1 + recordSize * BITMAP_WIDTH;
    var n := Capacity(pageSize, hdrSize, recordSize);
    Quotient(BITMAP_WIDTH * room + 1, unit);
    assert n * unit == n + 8 * (n * recordSize);
    Packed(n, n * recordSize, room);
  }

  lemma Quotient(top: int, unit: int)
    requires top >= 0 && unit >= 1
    ensures var n := top / unit;
            n >= 0 && n * unit <= top && (n >= 1 <==> top >= unit)
  {
    var n := top / unit;
    assert top == n * unit + top % unit;
    if n >= 1 { assert n * unit >= unit; }
  }

  lemma Packed(n: int, bytes: int, room: int)
    requires n + 8 * bytes <= BITMAP_WIDTH * room + 1
    ensures BitmapSize(n) + bytes <= room + 1
  {
  }

  /** `k` slots fit a page behind a header of this size and a bitmap with a bit for each. */
  predicate SlotsFit(pageSize: int, hdrSize: int, recordSize: int, k: int) {
    k >= 0 && hdrSize + BitmapSize(k) + k * recordSize <= pageSize
  }

  /** `n` is the quotient: no more units go into `top`. */
  predicate IsQuotient(top: int, unit: int, n: int) {
    n * unit <= top < (n + 1) * unit
  }

  lemma QuotientUnique(top: int, unit: int, n: int, k: int)
    requires unit >= 1 && IsQuotient(top, unit, n)
    ensures k * unit <= top <==> k <= n
  {
    if k <= n { assert k * unit <= n * unit; } else { assert (n + 1) * unit <= k * unit; }
  }

  lemma QuotientIs(top: int, unit: int)
    requires unit >= 1
    ensures IsQuotient(top, unit, top / unit)
  {
    var n := top / unit;
    assert top == n * unit + top % unit;
    assert (n + 1) * unit == n * unit + unit;
  }

  /** A slot takes its bytes and one bit. */
  lemma SlotsFitIff(pageSize: int, hdrSize: int, recordSize: int, k: int)
    requires k >= 0
    ensures SlotsFit(pageSize, hdrSize, recordSize, k) <==> k * (1 + recordSize * BITMAP_WIDTH) <= BITMAP_WIDTH * (pageSize - hdrSize)
  {
    var bytes := k * recordSize;
    assert k * (1 + recordSize * BITMAP_WIDTH) == k + 8 * bytes;
    assert BitmapSize(k) <= pageSize - hdrSize - bytes <==> k <= 8 * (pageSize - hdrSize - bytes);
  }

  /**
   The capacity is the greatest number of slots that fit, or one less: one less exactly when fewer than seven bits of
   the page would be left over.
   */
  lemma CapacityGreatestIff(pageSize: int, hdrSize: int, recordSize: int)
    requires 0 <= hdrSize < pageSize && recordSize >= 1
    ensures var (n, unit) := (Capacity(pageSize, hdrSize, recordSize), 1 + recordSize * BITMAP_WIDTH);
            && SlotsFit(pageSize, hdrSize, recordSize, n)
            && (forall k | k > n + 1 :: !SlotsFit(pageSize, hdrSize, recordSize, k))
            && (!SlotsFit(pageSize, hdrSize, recordSize, n + 1) <==> BITMAP_WIDTH * (pageSize - hdrSize) % unit >= BITMAP_WIDTH - 1)
  {
    var (n, unit, bits) := (Capacity(pageSize, hdrSize, recordSize), 1 + recordSize * BITMAP_WIDTH, BITMAP_WIDTH * (pageSize - hdrSize));
    CapacityFits(pageSize, hdrSize, recordSize);
    var q := bits / unit;
    QuotientIs(bits, unit);
    CapacityNear(bits, unit, q);
    forall k | k >= 0 ensures SlotsFit(pageSize, hdrSize, recordSize, k) <==> k <= q {
      SlotsFitIff(pageSize, hdrSize, recordSize, k);
      QuotientUnique(bits, unit, q, k);
    }
  }

  lemma CapacityNear(bits: int, unit: int, q: int)
    requires unit >= 9 && q == bits / unit
    ensures (bits - 7) / unit == if bits % unit >= 7 then q else q - 1
  {
    var n := if bits % unit >= 7 then q else q - 1;
    assert bits == q * unit + bits % unit;
    assert (q - 1) * unit == q * unit - unit;
    QuotientIs(bits - 7, unit);
    assert (n + 1) * unit == n * unit + unit;
    assert IsQuotient(bits - 7, unit, n);
    QuotientUnique(bits - 7, unit, n, (bits - 7) / unit);
    QuotientUnique(bits - 7, unit, (bits - 7) / unit, n);
  }

  /** The number of slots create_file computes, as the quotient it is. */
  lemma CapacityIs(pageSize: int, hdrSize: int, recordSize: int)
    requires recordSize >= 1
    ensures IsQuotient(8 * (pageSize - 1 - hdrSize) + 1, 1 + 8 * recordSize, Capacity(pageSize, hdrSize, recordSize))
  {
    QuotientIs(8 * (pageSize - 1 - hdrSize) + 1, 1 + 8 * recordSize);
  }

  /** With one-byte records create_file leaves out a slot that would fit. */
  lemma SlotLeftOut()
    ensures Capacity(PAGE_SIZE, FILE_HDR_SIZE, 1) == 3622 && SlotsFit(PAGE_SIZE, FILE_HDR_SIZE, 1, 3623)
  {
  }

  // ----- Pages -----

  datatype FileHdr = FileHdr(recordSize: int, numPages: int, perPage: int, firstFree: int, bitmapSize: int)

  /** What create_file sets and nothing changes. */
  predicate HdrOk(h: FileHdr) {
    && 1 <= h.recordSize <= RM_MAX_RECORD_SIZE
    && h.perPage == Capacity(PAGE_SIZE, FILE_HDR_SIZE, h.recordSize)
    && h.bitmapSize == BitmapSize(h.perPage)
  }

  const NEXT_OFF := 4
  const NUM_OFF := 8
  const BITMAP_OFF := 12

  function SlotOff(h: FileHdr, i: int): int {
    BITMAP_OFF + h.bitmapSize + i * h.recordSize
  }

  lemma HdrFits(h: FileHdr)
    requires HdrOk(h)
    ensures h.perPage >= 1 && 0 <= h.bitmapSize && h.perPage <= 8 * h.bitmapSize && SlotOff(h, h.perPage) <= PAGE_SIZE
  {
    CapacityFits(PAGE_SIZE, FILE_HDR_SIZE, h.recordSize);
  }

  lemma SlotFits(h: FileHdr, i: int)
    requires HdrOk(h) && 0 <= i < h.perPage
    ensures BITMAP_OFF + h.bitmapSize <= SlotOff(h, i) && SlotOff(h, i) + h.recordSize <= SlotOff(h, h.perPage) <= PAGE_SIZE
    ensures BITMAP_OFF + i / 8 < BITMAP_OFF + h.bitmapSize
  {
    HdrFits(h);
    MulStep(i, h.perPage, h.recordSize);
  }

  lemma MulStep(i: int, j: int, r: int)
    requires 0 <= i < j && r >= 1
    ensures 0 <= i * r && i * r + r <= j * r
  {
    assert i * r + r == (i + 1) * r;
    assert (i + 1) * r <= j * r;
  }

  /** What the bytes of a record page say. */
  datatype PageView = PageView(next: int, num: int, bits: seq<bool>, slots: seq<Bytes>)

  predicate IsPage(h: FileHdr, page: Bytes) {
    HdrOk(h) && |page| == PAGE_SIZE
  }

  function BitAt(page: Bytes, i: int): bool
    requires 0 <= i && BITMAP_OFF + i / 8 < |page|
  {
    BitOf(page[BITMAP_OFF + i / 8], i % 8)
  }

  function Slot(h: FileHdr, page: Bytes, i: int): (r: Bytes)
    requires IsPage(h, page) && 0 <= i < h.perPage
    ensures |r| == h.recordSize
  {
    SlotFits(h, i);
    Range(page, SlotOff(h, i), h.recordSize)
  }

  function Bits(h: FileHdr, page: Bytes): (r: seq<bool>)
    requires IsPage(h, page)
    ensures |r| == h.perPage && forall i | 0 <= i < h.perPage :: (SlotFits(h, i); r[i] == BitAt(page, i))
  {
    HdrFits(h);
    seq(h.perPage, i requires 0 <= i < h.perPage => SlotFits(h, i); BitAt(page, i))
  }

  function Slots(h: FileHdr, page: Bytes): (r: seq<Bytes>)
    requires IsPage(h, page)
    ensures |r| == h.perPage && forall i | 0 <= i < h.perPage :: r[i] == Slot(h, page, i)
  {
    HdrFits(h);
    seq(h.perPage, i requires 0 <= i < h.perPage => Slot(h, page, i))
  }

  function View(h: FileHdr, page: Bytes): PageView
    requires IsPage(h, page)
  {
    PageView(Decode32(Range(page, NEXT_OFF, 4)), Decode32(Range(page, NUM_OFF, 4)), Bits(h, page), Slots(h, page))
  }

  function PowTwo(k: nat): (w: int)
    ensures w > 0
  {
    if k == 0 then 1 else 2 * PowTwo(k - 1)
  }

  lemma WeightIs(k: nat)
    requires k < 8
    ensures Weight(k) == PowTwo(7 - k)
    decreases 7 - k
  {
    if k < 7 { WeightIs(k + 1); }
  }

  /**
   Where everything is on a page: the link at 4, the count at 8, bit `i` at 12 + i / 8 counting from the highest bit,
   and behind the bitmap the slots one after the other.
   */
  lemma PageLayout(h: FileHdr, page: Bytes, i: int)
    requires IsPage(h, page) && 0 <= i < h.perPage
    ensures View(h, page).next == NumberAt(page, 4) && View(h, page).num == NumberAt(page, 8)
    ensures 12 + i / 8 < |page| && (View(h, page).bits[i] <==> page[12 + i / 8] / PowTwo(7 - i % 8) % 2 == 1)
    ensures var at := 12 + h.bitmapSize + i * h.recordSize;
            0 <= at <= at + h.recordSize <= |page| && View(h, page).slots[i] == page[at..at + h.recordSize]
  {
    SlotFits(h, i);
    LittleEndian(0, page, 4);
    LittleEndian(0, page, 8);
    WeightIs(i % 8);
  }

  // ----- Writing to a page -----

  function SetNext(page: Bytes, v: int): Bytes
    requires |page| == PAGE_SIZE
  {
    Splice(page, NEXT_OFF, Encode32(v))
  }

  function SetNum(page: Bytes, v: int): Bytes
    requires |page| == PAGE_SIZE
  {
    Splice(page, NUM_OFF, Encode32(v))
  }

  function SetBit(h: FileHdr, page: Bytes, i: int, on: bool): Bytes
    requires IsPage(h, page) && 0 <= i < h.perPage
  {
    SlotFits(h, i);
    Splice(page, BITMAP_OFF + i / 8, [WithBit(page[BITMAP_OFF + i / 8], i % 8, on)])
  }

  function PutSlot(h: FileHdr, page: Bytes, i: int, buf: Bytes): (r: Bytes)
    requires IsPage(h, page) && 0 <= i < h.perPage && |buf| == h.recordSize
    ensures |r| == PAGE_SIZE
  {
    SlotFits(h, i);
    Splice(page, SlotOff(h, i), buf)
  }

  function ClearBitmap(h: FileHdr, page: Bytes): Bytes
    requires IsPage(h, page)
  {
    HdrFits(h);
    Splice(page, BITMAP_OFF, seq(h.bitmapSize, _ => 0))
  }

  lemma BitsFrom(h: FileHdr, p: Bytes, q: Bytes)
    requires IsPage(h, p) && IsPage(h, q) && BITMAP_OFF + h.bitmapSize <= PAGE_SIZE && 0 <= h.bitmapSize
    requires Range(p, BITMAP_OFF, h.bitmapSize) == Range(q, BITMAP_OFF, h.bitmapSize)
    ensures Bits(h, p) == Bits(h, q)
  {
    forall i | 0 <= i < h.perPage ensures Bits(h, p)[i] == Bits(h, q)[i] {
      SlotFits(h, i);
      assert p[BITMAP_OFF + i / 8] == Range(p, BITMAP_OFF, h.bitmapSize)[i / 8];
      assert q[BITMAP_OFF + i / 8] == Range(q, BITMAP_OFF, h.bitmapSize)[i / 8];
    }
  }

  /** Writing below the slots leaves every slot alone. */
  lemma SlotsBelow(h: FileHdr, page: Bytes, off: nat, part: Bytes)
    requires IsPage(h, page) && off + |part| <= BITMAP_OFF + h.bitmapSize && off + |part| <= PAGE_SIZE
    ensures Slots(h, Splice(page, off, part)) == Slots(h, page)
  {
    forall i | 0 <= i < h.perPage ensures Slots(h, Splice(page, off, part))[i] == Slots(h, page)[i] {
      SlotFits(h, i);
      SpliceOther(page, off, part, SlotOff(h, i), h.recordSize);
    }
  }

  /** A new link changes nothing else the page says. */
  lemma SetNextView(h: FileHdr, page: Bytes, v: int)
    requires IsPage(h, page) && IsInt32(v)
    ensures View(h, SetNext(page, v)) == View(h, page).(next := v)
  {
    HdrFits(h);
    Int32RoundTrip(v);
    SpliceSame(page, NEXT_OFF, Encode32(v));
    SpliceOther(page, NEXT_OFF, Encode32(v), NUM_OFF, 4);
    SpliceOther(page, NEXT_OFF, Encode32(v), BITMAP_OFF, h.bitmapSize);
    BitsFrom(h, SetNext(page, v), page);
    SlotsBelow(h, page, NEXT_OFF, Encode32(v));
  }

  lemma SetNumView(h: FileHdr, page: Bytes, v: int)
    requires IsPage(h, page) && IsInt32(v)
    ensures View(h, SetNum(page, v)) == View(h, page).(num := v)
  {
    HdrFits(h);
    Int32RoundTrip(v);
    SpliceSame(page, NUM_OFF, Encode32(v));
    SpliceOther(page, NUM_OFF, Encode32(v), NEXT_OFF, 4);
    SpliceOther(page, NUM_OFF, Encode32(v), BITMAP_OFF, h.bitmapSize);
    BitsFrom(h, SetNum(page, v), page);
    SlotsBelow(h, page, NUM_OFF, Encode32(v));
  }

  /** One bit changes no other bit, no slot and no header field. */
  lemma SetBitView(h: FileHdr, page: Bytes, i: int, on: bool)
    requires IsPage(h, page) && 0 <= i < h.perPage
    ensures View(h, SetBit(h, page, i, on)) == View(h, page).(bits := Bits(h, page)[i := on])
  {
    SlotFits(h, i);
    var at := BITMAP_OFF + i / 8;
    var part := [WithBit(page[at], i % 8, on)];
    var q := Splice(page, at, part);
    SpliceOther(page, at, part, NEXT_OFF, 4);
    SpliceOther(page, at, part, NUM_OFF, 4);
    SlotsBelow(h, page, at, part);
    forall j | 0 <= j < h.perPage ensures Bits(h, q)[j] == Bits(h, page)[i := on][j] {
      SlotFits(h, j);
      if j / 8 == i / 8 {
        WithBitMeaning(page[at], i % 8, on, j % 8);
        assert j == i <==> j % 8 == i % 8;
      } else {
        SpliceOther(page, at, part, BITMAP_OFF + j / 8, 1);
        assert q[BITMAP_OFF + j / 8] == Range(q, BITMAP_OFF + j / 8, 1)[0];
        assert page[BITMAP_OFF + j / 8] == Range(page, BITMAP_OFF + j / 8, 1)[0];
      }
    }
  }

  /** One slot changes no other slot, no bit and no header field. */
  lemma PutSlotView(h: FileHdr, page: Bytes, i: int, buf: Bytes)
    requires IsPage(h, page) && 0 <= i < h.perPage && |buf| == h.recordSize
    ensures View(h, PutSlot(h, page, i, buf)) == View(h, page).(slots := Slots(h, page)[i := buf])
  {
    HdrFits(h);
    SlotFits(h, i);
    var off := SlotOff(h, i);
    var q := Splice(page, off, buf);
    SpliceSame(page, off, buf);
    SpliceOther(page, off, buf, NEXT_OFF, 4);
    SpliceOther(page, off, buf, NUM_OFF, 4);
    SpliceOther(page, off, buf, BITMAP_OFF, h.bitmapSize);
    BitsFrom(h, q, page);
    forall j | 0 <= j < h.perPage ensures Slots(h, q)[j] == Slots(h, page)[i := buf][j] {
      SlotFits(h, j);
      if j < i { MulStep(j, i, h.recordSize); } else if i < j { MulStep(i, j, h.recordSize); }
      if j != i { SpliceOther(page, off, buf, SlotOff(h, j), h.recordSize); }
    }
  }

  lemma ClearBitmapView(h: FileHdr, page: Bytes)
    requires IsPage(h, page)
    ensures View(h, ClearBitmap(h, page)) == View(h, page).(bits := seq(h.perPage, _ => false))
  {
    HdrFits(h);
    var zeros: Bytes := seq(h.bitmapSize, _ => 0);
    var q := Splice(page, BITMAP_OFF, zeros);
    SpliceSame(page, BITMAP_OFF, zeros);
    SpliceOther(page, BITMAP_OFF, zeros, NEXT_OFF, 4);
    SpliceOther(page, BITMAP_OFF, zeros, NUM_OFF, 4);
    SlotsBelow(h, page, BITMAP_OFF, zeros);
    forall i | 0 <= i < h.perPage ensures !Bits(h, q)[i] {
      SlotFits(h, i);
      assert q[BITMAP_OFF + i / 8] == Range(q, BITMAP_OFF, h.bitmapSize)[i / 8] == 0;
    }
  }
}
