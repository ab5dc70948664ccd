/** Byte buffers written and read at a running offset, as the serializers do. */
module Buffers {
  import opened Defs
  import opened PoolState
  import opened Layout

  /** memcpy: `part` goes behind the `done` bytes at the front of the buffer. */
  method Put(dest: array<Byte>, offset: nat, part: Bytes, ghost done: Bytes) returns (next: nat)
    requires offset == |done| && offset + |part| <= dest.Length && dest[..offset] == done
    modifies dest
    ensures next == offset + |part| && dest[..next] == done + part
    ensures forall k | next <= k < dest.Length :: dest[k] == old(dest[k])
  {
    for i := 0 to |part|
      invariant dest[..offset + i] == done + part[..i]
      invariant forall k | offset + i <= k < dest.Length :: dest[k] == old(dest[k])
    {
      dest[offset + i] := part[i];
      assert dest[..offset + i + 1] == dest[..offset + i] + [part[i]];
      assert part[..i + 1] == part[..i] + [part[i]];
    }
    assert part[..|part|] == part;
    next := offset + |part|;
  }

  // ----- Runs of four-byte integers -----

  function IntsBytes(xs: seq<int>): (b: Bytes)
    ensures |b| == 4 * |xs|
  {
    if xs == [] then [] else IntsBytes(xs[..|xs| - 1]) + Encode32(xs[|xs| - 1])
  }

  lemma IntsAppend(xs: seq<int>, x: int)
    ensures IntsBytes(xs + [x]) == IntsBytes(xs) + Encode32(x)
  {
    assert (xs + [x])[..|xs|] == xs;
  }

  function IntAt(src: Bytes, offset: nat): (v: int)
    requires offset + 4 <= |src|
    ensures IsInt32(v)
  {
    Decode32(Range(src, offset, 4))
  }

  /** The `n` integers from `offset` on. */
  function IntsAt(src: Bytes, offset: nat, n: nat): (xs: seq<int>)
    requires offset + 4 * n <= |src|
    ensures |xs| == n
  {
    if n == 0 then [] else IntsAt(src, offset, n - 1) + [IntAt(src, offset + 4 * (n - 1))]
  }

  lemma RangeMiddle(a: Bytes, m: Bytes, b: Bytes)
    ensures Range(a + m + b, |a|, |m|) == m
  {
  }

  lemma Regroup(a: Bytes, b: Bytes, c: Bytes, d: Bytes)
    ensures a + (b + c) + d == (a + b) + c + d == a + b + (c + d)
  {
  }

  /** Every integer written is read back from its place, whatever stands before and behind. */
  lemma IntReadsBack(before: Bytes, xs: seq<int>, after: Bytes, k: nat)
    requires k < |xs| && IsInt32(xs[k])
    ensures IntAt(before + IntsBytes(xs) + after, |before| + 4 * k) == xs[k]
  {
    IntInPlace(before, xs, after, k);
    Int32RoundTrip(xs[k]);
  }

  lemma {:induction false} IntInPlace(before: Bytes, xs: seq<int>, after: Bytes, k: nat)
    requires k < |xs|
    ensures IntAt(before + IntsBytes(xs) + after, |before| + 4 * k) == Decode32(Encode32(xs[k]))
    decreases |xs|
  {
    var n := |xs| - 1;
    var init, e := IntsBytes(xs[..n]), Encode32(xs[n]);
    assert IntsBytes(xs) == init + e;
    hide IntsBytes, Range, Encode32, Decode32;
    Regroup(before, init, e, after);
    if k == n {
      RangeMiddle(before + init, e, after);
    } else {
      IntInPlace(before, xs[..n], e + after, k);
    }
  }

  lemma IntIsNumber(src: Bytes, offset: nat)
    requires offset + 4 <= |src|
    ensures IntAt(src, offset) == NumberAt(src, offset) && Unsigned32(IntAt(src, offset)) == Unsigned(src[offset..offset + 4])
  {
    LittleEndian(0, src, offset);
    UnsignedFour(src[offset..offset + 4]);
  }

  method PutInt(dest: array<Byte>, offset: nat, v: int, ghost done: seq<int>) returns (next: nat)
    requires offset == 4 * |done| && offset + 4 <= dest.Length && dest[..offset] == IntsBytes(done)
    modifies dest
    ensures next == offset + 4 && dest[..next] == IntsBytes(done + [v])
    ensures forall k | next <= k < dest.Length :: dest[k] == old(dest[k])
  {
    next := Put(dest, offset, Encode32(v), IntsBytes(done));
    IntsAppend(done, v);
  }

  method PutInts(dest: array<Byte>, offset: nat, xs: seq<int>, n: nat, ghost done: seq<int>) returns (next: nat)
    requires n <= |xs| && offset == 4 * |done| && offset + 4 * n <= dest.Length && dest[..offset] == IntsBytes(done)
    modifies dest
    ensures next == offset + 4 * n && dest[..next] == IntsBytes(done + xs[..n])
    ensures forall k | next <= k < dest.Length :: dest[k] == old(dest[k])
  {
    hide IntsBytes;
    next := offset;
    assert done + xs[..0] == done;
    for i := 0 to n
      invariant next == offset + 4 * i && dest[..next] == IntsBytes(done + xs[..i])
      invariant forall k | next <= k < dest.Length :: dest[k] == old(dest[k])
    {
      next := PutInt(dest, next, xs[i], done + xs[..i]);
      assert done + xs[..i] + [xs[i]] == done + xs[..i + 1];
    }
  }

  /** Pushes the `n` integers from `offset` on behind `into`. */
  method GetInts(src: Bytes, offset: nat, n: nat, into: seq<int>) returns (xs: seq<int>, next: nat)
    requires offset + 4 * n <= |src|
    ensures next == offset + 4 * n && xs == into + IntsAt(src, offset, n)
  {
    hide IntAt;
    xs, next := into, offset;
    for i := 0 to n
      invariant next == offset + 4 * i && xs == into + IntsAt(src, offset, i)
    {
      xs := xs + [IntAt(src, next)];
      next := next + 4;
    }
  }

  // ----- Eight-byte sizes -----

  function Unsigned32(v: int): int {
    v % TWO_32
  }

  function SizeBytes(n: int): (b: Bytes)
    ensures |b| == 8
  {
    Encode32(n) + Encode32(n / TWO_32)
  }

  function SizeAt(src: Bytes, offset: nat): int
    requires offset + 8 <= |src|
  {
    Unsigned32(IntAt(src, offset)) + TWO_32 * Unsigned32(IntAt(src, offset + 4))
  }

  lemma {:induction false} UnsignedAppend(a: Bytes, b: Bytes)
    requires |a| <= 4
    ensures Unsigned(a + b) == Unsigned(a) + (if |a| == 0 then 1 else if |a| == 1 then 256 else if |a| == 2 then 65536
                                              else if |a| == 3 then 16777216 else TWO_32) * Unsigned(b)
  {
    if a == [] {
      assert a + b == b;
    } else {
      assert (a + b)[1..] == a[1..] + b;
      UnsignedAppend(a[1..], b);
    }
  }

  /** Sizes are eight-byte numbers, the least significant byte first. */
  lemma SizeIsNumber(src: Bytes, offset: nat)
    requires offset + 8 <= |src|
    ensures SizeAt(src, offset) == Unsigned(src[offset..offset + 8])
  {
    IntIsNumber(src, offset);
    IntIsNumber(src, offset + 4);
    UnsignedAppend(src[offset..offset + 4], src[offset + 4..offset + 8]);
    assert src[offset..offset + 8] == src[offset..offset + 4] + src[offset + 4..offset + 8];
  }

  lemma WordReadsBack(v: int)
    ensures Unsigned32(Decode32(Encode32(v))) == Unsigned32(v)
  {
    ByteSum(v % TWO_32);
  }

  lemma SizeReadsBack(before: Bytes, n: int, after: Bytes)
    ensures SizeAt(before + SizeBytes(n) + after, |before|) == n <==> 0 <= n < TWO_32 * TWO_32
  {
    var lo, hi := Encode32(n), Encode32(n / TWO_32);
    assert before + SizeBytes(n) + after == before + lo + (hi + after) == (before + lo) + hi + after;
    RangeMiddle(before, lo, hi + after);
    RangeMiddle(before + lo, hi, after);
    WordReadsBack(n);
    WordReadsBack(n / TWO_32);
  }
}
