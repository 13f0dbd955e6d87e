/**
 The slab allocator in flat memory: an 8-byte header, a bitmap and equal objects, all inside one
 region.
 */
module Slab {
  import opened Bytes
  import opened Bitmap
  import opened SlabLayout
  import opened Arithmetic

  /** The geometry of a region, as its header records it. */
  datatype Region = Region(start: nat, end: nat, size: nat, entries: nat, bitmap: nat) {
    function Bits(): nat { start + SLAB_HEADER }
    function Object(i: nat): nat requires 0 < size { ObjectAt(start, size, bitmap, i) }
  }

  ghost predicate Geometry(r: Region) {
    && 0 < r.size < U16 && r.entries < U16 && r.entries <= 8 * r.bitmap && r.bitmap < U32
    && r.Bits() + r.bitmap <= r.end < U32
    && Fits(r.end - r.start, r.size, r.entries, r.bitmap)
  }

  /** The header fields found at a. */
  function HeaderFields(m: Memory, a: nat): (nat, nat, nat)
    requires a + SLAB_HEADER <= |m|
  {
    (FromLE(m[a..a + 2]), FromLE(m[a + 2..a + 4]), FromLE(m[a + 4..a + 8]))
  }

  /** Memory holds the region: its header reads back the geometry. */
  ghost predicate Sound(m: Memory, r: Region) {
    && Geometry(r) && r.end <= |m|
    && HeaderFields(m, r.start) == (r.size, r.entries, r.bitmap)
  }

  lemma SoundExtent(m: Memory, r: Region)
    requires Sound(m, r)
    ensures r.Bits() + BitmapSize(r.entries) <= r.Bits() + r.bitmap < r.Object(0) <= r.end <= |m|
    ensures forall e: nat :: e < r.entries ==> BitmapIdx(e) < r.bitmap
  {
    hide SlabOverhead;
    MulLe(0, r.entries, r.size);
  }

  /** The entries in use. */
  ghost function Live(m: Memory, r: Region): set<nat>
    requires Sound(m, r)
  {
    SoundExtent(m, r);
    Members(m, r.Bits(), r.entries)
  }

  // ---------------------------------------------------------------- init_slab

  lemma HeaderFieldsKept(m: Memory, m': Memory, a: nat, n: nat, slab: nat)
    requires SameOutside(m, m', a, n) && slab + SLAB_HEADER <= a && slab + SLAB_HEADER <= |m|
    ensures HeaderFields(m', slab) == HeaderFields(m, slab)
  {
    SliceSame(m, m', a, n, slab, 2);
    SliceSame(m, m', a, n, slab + 2, 2);
    SliceSame(m, m', a, n, slab + 4, 4);
  }

  /** What init_slab lays out; the header keeps 16 bits of the object size. */
  function RegionOf(start: nat, end: nat, size: nat): Region
    requires 0 < size && start <= end
  {
    Region(start, end, size % U16, StoredEntries(end - start, size), StoredBitmapSize(end - start, size))
  }

  lemma NoMembers(m: Memory, bm: nat, n: nat)
    requires bm + BitmapSize(n) <= |m| && forall p :: bm <= p < bm + BitmapSize(n) ==> m[p] == 0
    ensures Members(m, bm, n) == {}
  {
  }

  /** The three header stores read back, and the bytes around them stay. */
  lemma HeaderStored(m: Memory, a: nat, size: nat, entries: nat, bitmap: nat)
    requires a + SLAB_HEADER <= |m| && size < U16 && entries < U16 && bitmap < U32
    ensures var m' := Store(Store(Store(m, a, ToLE(size, 2)), a + 2, ToLE(entries, 2)), a + 4, ToLE(bitmap, 4));
      HeaderFields(m', a) == (size, entries, bitmap) && SameOutside(m, m', a, SLAB_HEADER)
  {
    FromToLE(size, 2);
    FromToLE(entries, 2);
    FromToLE(bitmap, 4);
    hide ToLE, FromLE;
    var m1 := Store(m, a, ToLE(size, 2));
    var m2 := Store(m1, a + 2, ToLE(entries, 2));
    var m3 := Store(m2, a + 4, ToLE(bitmap, 4));
    StoreEffect(m, a, ToLE(size, 2));
    StoreEffect(m1, a + 2, ToLE(entries, 2));
    StoreEffect(m2, a + 4, ToLE(bitmap, 4));
    SliceSame(m1, m2, a + 2, 2, a, 2);
    SliceSame(m2, m3, a + 4, 4, a, 2);
    SliceSame(m2, m3, a + 4, 4, a + 2, 2);
  }

  lemma CountUnfolded(total: nat, size: nat)
    requires 0 < size
    ensures Count(total, size) == (total / size - (BitmapSize(total / size) + SLAB_HEADER + size) / size) % U64
    ensures StoredEntries(total, size) == Count(total, size) % U16
  {
  }

  lemma FitsExtent(total: nat, size: nat, n: nat, bitmap: nat)
    requires 0 < size && Fits(total, size, n, bitmap)
    ensures SLAB_HEADER + bitmap <= total
  {
    hide SlabOverhead;
    MulLe(0, n, size);
  }

  lemma GeometryOfRegion(start: nat, end: nat, size: nat)
    requires 0 < size && size % U16 != 0 && start <= end < U32
    requires GivenUp(end - start, size) <= Whole(end - start, size)
    ensures Geometry(RegionOf(start, end, size))
  {
    hide Whole, GivenUp, Count, SlabOverhead, BitmapSize, Fits;
    var total := end - start;
    CountExact(total, size);
    TruncatedFits(total, size);
    FitsExtent(total, size % U16, StoredEntries(total, size), StoredBitmapSize(total, size));
  }

  /** A count that wraps gives a bitmap for no entries, or one larger than any region. */
  lemma WrappedGeometry(start: nat, end: nat, size: nat)
    requires 0 < size && start <= end < U32 && Whole(end - start, size) < GivenUp(end - start, size)
    ensures !Geometry(RegionOf(start, end, size))
  {
    hide Fits;
    WrappedBitmap(end - start, size);
  }

  /** The arithmetic of init_slab. */
  method NumEntries(memStart: nat, memEnd: nat, allocationSize: nat) returns (numEntries: nat)
    requires 0 < allocationSize && memStart <= memEnd < U32
    ensures numEntries == Count(memEnd - memStart, allocationSize)
  {
    SmallMod(memEnd - memStart, U32);
    CountUnfolded(memEnd - memStart, allocationSize);
    hide Count, BitmapSize;
    var memTotal := (memEnd - memStart) % U32;
    var whole := memTotal / allocationSize;
    var overhead := BitmapSize(whole) + SLAB_HEADER;
    numEntries := (whole - (overhead + allocationSize) / allocationSize) % U64;
  }

  /** The stores of init_slab. */
  method WriteMetadata(ram: array<bv8>, slab: nat, size: nat, entries: nat, bitmap: nat)
    requires size < U16 && entries < U16 && bitmap < U32 && slab + SLAB_HEADER + bitmap <= ram.Length
    modifies ram
    ensures HeaderFields(ram[..], slab) == (size, entries, bitmap)
    ensures forall p :: slab + SLAB_HEADER <= p < slab + SLAB_HEADER + bitmap ==> ram[p] == 0
    ensures SameOutside(old(ram[..]), ram[..], slab, SLAB_HEADER + bitmap)
  {
    hide FromLE, ToLE;
    ghost var m0 := ram[..];
    StoreBytes(ram, slab, ToLE(size, 2));
    StoreBytes(ram, slab + 2, ToLE(entries, 2));
    StoreBytes(ram, slab + 4, ToLE(bitmap, 4));
    HeaderStored(m0, slab, size, entries, bitmap);
    ghost var m1 := ram[..];
    StoreBytes(ram, slab + SLAB_HEADER, Zeros(bitmap));
    StoreEffect(m1, slab + SLAB_HEADER, Zeros(bitmap));
    HeaderFieldsKept(m1, ram[..], slab + SLAB_HEADER, bitmap, slab);
  }

  lemma SoundIsUnwrapped(m: Memory, start: nat, end: nat, size: nat)
    requires 0 < size && start <= end < U32 && end <= |m|
    requires start + SLAB_HEADER <= |m|
    requires var r := RegionOf(start, end, size); HeaderFields(m, start) == (r.size, r.entries, r.bitmap)
    ensures Sound(m, RegionOf(start, end, size))
       <==> GivenUp(end - start, size) <= Whole(end - start, size) && size % U16 != 0
  {
    hide HeaderFields, Whole, GivenUp, Count, StoredEntries, StoredBitmapSize, SlabOverhead, Fits;
    if Whole(end - start, size) < GivenUp(end - start, size) {
      WrappedGeometry(start, end, size);
    } else if size % U16 != 0 {
      GeometryOfRegion(start, end, size);
    }
  }

  lemma StoredSizes(memStart: nat, memEnd: nat, size: nat)
    requires 0 < size && memStart <= memEnd < U32
    ensures var r, n := RegionOf(memStart, memEnd, size), Count(memEnd - memStart, size);
      r.entries == n % U16 && r.bitmap == (n + 7) % U64 / 8 % U32
  {
    hide Count;
  }

  /** init_slab stores the geometry and clears the bitmap; the region is then sound, with no object in
      use, exactly when line 14 does not wrap and the 16 bits of the object size that the header keeps are
      not zero.  When line 14 wraps, the bytes the code clears must exist. */
  method InitSlab(ram: array<bv8>, memStart: nat, memEnd: nat, allocationSize: nat) returns (ghost r: Region)
    requires 0 < allocationSize < U64 - U32 && memStart <= memEnd <= ram.Length && memEnd < U32
    requires GivenUp(memEnd - memStart, allocationSize) <= Whole(memEnd - memStart, allocationSize)
      || memStart + SLAB_HEADER + StoredBitmapSize(memEnd - memStart, allocationSize) <= ram.Length
    modifies ram
    ensures r == RegionOf(memStart, memEnd, allocationSize)
    ensures memStart + 8 <= ram.Length
    ensures HeaderFields(ram[..], memStart) == (allocationSize % U16, r.entries, r.bitmap)
    ensures SameOutside(old(ram[..]), ram[..], memStart, 8 + r.bitmap)
    ensures Sound(ram[..], r)
       <==> (GivenUp(memEnd - memStart, allocationSize) <= Whole(memEnd - memStart, allocationSize)
             && allocationSize % U16 != 0)
    ensures Sound(ram[..], r) ==> Live(ram[..], r) == {}
  {
    hide HeaderFields, Fits, Whole, GivenUp, Count, StoredEntries, StoredBitmapSize, SlabOverhead, BitmapSize,
      BitmapGet;
    r := RegionOf(memStart, memEnd, allocationSize);
    if GivenUp(memEnd - memStart, allocationSize) <= Whole(memEnd - memStart, allocationSize) {
      CountFits(memEnd - memStart, allocationSize);
      FitsExtent(memEnd - memStart, allocationSize, r.entries, r.bitmap);
    }
    StoredSizes(memStart, memEnd, allocationSize);
    var numEntries := NumEntries(memStart, memEnd, allocationSize);
    WriteMetadata(ram, memStart, allocationSize % U16, numEntries % U16, (numEntries + 7) % U64 / 8 % U32);
    SoundIsUnwrapped(ram[..], memStart, memEnd, allocationSize);
    if Sound(ram[..], r) {
      SoundExtent(ram[..], r);
      NoMembers(ram[..], r.Bits(), r.entries);
    }
  }

  // ---------------------------------------------------------------- slab_alloc and slab_free

  /** The scan: the first entry from i on whose bit is clear, or entries. */
  ghost function FirstClear(m: Memory, r: Region, i: nat): (k: nat)
    requires Sound(m, r) && i <= r.entries
    ensures i <= k <= r.entries
    decreases r.entries - i
  {
    SoundExtent(m, r);
    if i < r.entries && BitmapGet(m, r.Bits(), i) then FirstClear(m, r, i + 1) else i
  }

  /** Memory and result of slab_alloc. */
  ghost function AllocSpec(m: Memory, r: Region): (Memory, nat)
    requires Sound(m, r)
  {
    SoundExtent(m, r);
    var i := FirstClear(m, r, 0);
    if i < r.entries then (Set(m, r.Bits(), i), r.Object(i)) else (m, 0)
  }

  /** Address p lies inside object i of the region. */
  ghost predicate InObject(r: Region, i: nat, p: nat)
    requires 0 < r.size
  {
    i < r.entries && r.Object(i) <= p < r.Object(i) + r.size
  }

  lemma AddressOf(r: Region, i: nat, p: nat)
    requires Geometry(r) && InObject(r, i, p)
    ensures SlabMem(r.start, r.size, r.bitmap, i) == r.Object(i)
    ensures SlabIndex(r.start, r.size, r.bitmap, p) == i
    ensures r.Bits() + r.bitmap < r.Object(i) <= p < r.Object(i) + r.size <= r.end
  {
    hide SlabOverhead;
    IndexUndoesMem(r.start, r.end - r.start, r.size, r.entries, r.bitmap, i, p - r.Object(i));
    ObjectInRegion(r.start, r.end - r.start, r.size, r.entries, r.bitmap, i);
  }

  method SlabAlloc(ram: array<bv8>, slab: nat, ghost r: Region) returns (p: nat)
    requires Sound(ram[..], r) && slab == r.start
    modifies ram
    ensures (ram[..], p) == AllocSpec(old(ram[..]), r)
  {
    hide FromLE, Fits, SlabOverhead, SlabMem, BitmapGet, Set;
    SoundExtent(ram[..], r);
    var bitmap := slab + SLAB_HEADER;
    var (size, entries, bitmapBytes) := HeaderFields(ram[..], slab);
    var idx := 0;
    while idx < entries && BitmapGet(ram[..], bitmap, idx)
      invariant idx <= entries && FirstClear(ram[..], r, 0) == FirstClear(ram[..], r, idx)
    {
      idx := (idx + 1) % U16;
    }
    if idx < entries {
      AddressOf(r, idx, r.Object(idx));
      BitmapSet(ram, bitmap, idx);
      p := SlabMem(slab, size, bitmapBytes, idx);
    } else {
      p := 0;
    }
  }

  method SlabFree(ram: array<bv8>, slab: nat, mem: nat, ghost r: Region, ghost i: nat)
    requires Sound(ram[..], r) && slab == r.start && InObject(r, i, mem)
    modifies ram
    ensures r.Bits() + BitmapIdx(i) < |old(ram[..])| && ram[..] == Clear(old(ram[..]), r.Bits(), i)
  {
    hide FromLE, Fits, SlabOverhead, SlabIndex, BitmapGet, Clear;
    SoundExtent(ram[..], r);
    AddressOf(r, i, mem);
    var (size, entries, bitmapBytes) := HeaderFields(ram[..], slab);
    BitmapClear(ram, slab + SLAB_HEADER, SlabIndex(slab, size, bitmapBytes, mem));
  }

  // ---------------------------------------------------------------- the region byte by byte

  /** The header is 8 bytes: object size at 0, count at 2, bitmap size at 4. */
  lemma HeaderInBytes(m: Memory, a: nat)
    requires a + 8 <= |m|
    ensures HeaderFields(m, a)
         == (m[a] as nat + 0x100 * m[a + 1] as nat, m[a + 2] as nat + 0x100 * m[a + 3] as nat,
             m[a + 4] as nat + 0x100 * m[a + 5] as nat + 0x1_0000 * m[a + 6] as nat + 0x100_0000 * m[a + 7] as nat)
  {
    TwoBytesLE(m[a..a + 2]);
    TwoBytesLE(m[a + 2..a + 4]);
    FourBytesLE(m[a + 4..a + 8]);
  }

  /** Object i, from the least multiple of the object size above header and bitmap. */
  lemma ObjectInBytes(r: Region, first: nat, i: nat)
    requires Geometry(r) && first % r.size == 0 && 8 + r.bitmap < first <= 8 + r.bitmap + r.size
    ensures r.Object(i) == r.start + first + i * r.size
  {
    OverheadIsNextMultiple(r.size, r.bitmap);
    DivBounds(first, r.size);
    SameMultiple(8 + r.bitmap, r.size, first / r.size, (SLAB_HEADER + r.bitmap) / r.size + 1);
  }

  /** Entry e is in use when its bit is set: bit e % 8 of the byte e / 8 after the header. */
  lemma LiveInBytes(m: Memory, r: Region, e: nat)
    requires Sound(m, r) && e < r.entries
    ensures r.start + 8 + e / 8 < |m|
    ensures e in Live(m, r) <==> (m[r.start + 8 + e / 8] >> (e % 8)) & 1 == 1
  {
    hide FromLE, HeaderFields, Geometry;
    SoundExtent(m, r);
    EntryIsBit(m, r.start + 8, e);
  }

  /** What init_slab lays out, in numbers: of the w objects that would fit the bytes from start to end alone, k are
      given up. */
  lemma RegionInNumbers(start: nat, end: nat, size: nat, w: nat, k: nat)
    requires 0 < size && start <= end < 0x1_0000_0000 && k <= w && w * size <= end - start < w * size + size
    requires 8 + (w + 7) / 8 < k * size <= 8 + (w + 7) / 8 + size
    ensures RegionOf(start, end, size) == Region(start, end, size % 0x1_0000, (w - k) % 0x1_0000, (w - k + 7) / 8)
  {
    QuotientOf(w, size, end - start - w * size);
    CountInNumbers(end - start, size, k);
  }

  /** The layout of 4096 bytes at 0x1000 for objects of 8 bytes: 502 entries, the first at 0x1048. */
  lemma PageOfWords()
    ensures RegionOf(0x1000, 0x2000, 8) == Region(0x1000, 0x2000, 8, 502, 63)
    ensures RegionOf(0x1000, 0x2000, 8).Object(0) == 0x1048
  {
    CountInNumbers(0x1000, 8, 10);
  }

  // ---------------------------------------------------------------- what one operation keeps

  /** A change confined to the bitmap, or above it, leaves the header. */
  lemma ChangeAboveHeader(m: Memory, m': Memory, r: Region, a: nat, n: nat)
    requires Sound(m, r) && SameOutside(m, m', a, n) && r.Bits() <= a
    ensures Sound(m', r)
  {
    hide SlabOverhead, FromLE;
    HeaderFieldsKept(m, m', a, n, r.start);
  }

  lemma BitChanged(m: Memory, r: Region, i: nat)
    requires Sound(m, r) && i < r.entries
    ensures r.Bits() + BitmapIdx(i) < |m|
    ensures var s, c := Set(m, r.Bits(), i), Clear(m, r.Bits(), i);
      && SameOutside(m, s, r.Bits(), r.bitmap) && Sound(s, r) && Live(s, r) == Live(m, r) + {i}
      && SameOutside(m, c, r.Bits(), r.bitmap) && Sound(c, r) && Live(c, r) == Live(m, r) - {i}
  {
    hide SlabOverhead, FromLE, HeaderFields, BitmapBit, Geometry;
    SoundExtent(m, r);
    assert BitmapIdx(i) < r.bitmap;
    var s, c := Set(m, r.Bits(), i), Clear(m, r.Bits(), i);
    assert SameOutside(m, s, r.Bits(), r.bitmap) && SameOutside(m, c, r.Bits(), r.bitmap);
    ChangeAboveHeader(m, s, r, r.Bits(), r.bitmap);
    ChangeAboveHeader(m, c, r, r.Bits(), r.bitmap);
    SetAdds(m, r.Bits(), r.entries, i);
    ClearRemoves(m, r.Bits(), r.entries, i);
  }

  /** A client write inside an object leaves header and bitmap. */
  lemma ObjectWritten(m: Memory, r: Region, i: nat, p: nat, v: bv8)
    requires Sound(m, r) && InObject(r, i, p)
    ensures p < |m| && Sound(m[p := v], r) && Live(m[p := v], r) == Live(m, r)
  {
    hide SlabOverhead, FromLE, HeaderFields;
    AddressOf(r, i, p);
    SoundExtent(m, r);
    ChangeAboveHeader(m, m[p := v], r, p, 1);
  }
}
