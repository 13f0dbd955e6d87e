/**
 Where a slab region puts its header, bitmap and objects.  Two places compute it with different
 formulas: init_slab when it decides how many objects fit, slab_overhead whenever an address is
 needed.
 */
module SlabLayout {
  import opened Bytes
  import opened Bitmap
  import opened Arithmetic

  const SLAB_HEADER: nat := 8

  // ---------------------------------------------------------------- init_slab's count

  /** Objects that would fit with no metadata at all. */
  function Whole(total: nat, size: nat): nat requires 0 < size { total / size }

  /** Objects given up for metadata: sized for the bitmap of all of them. */
  function GivenUp(total: nat, size: nat): nat
    requires 0 < size
  {
    (BitmapSize(Whole(total, size)) + SLAB_HEADER + size) / size
  }

  /** num_entries as init_slab computes it, in 64-bit arithmetic. */
  function Count(total: nat, size: nat): nat
    requires 0 < size
  {
    (Whole(total, size) - GivenUp(total, size)) % U64
  }

  /** The header fields, truncated to their widths. */
  function StoredEntries(total: nat, size: nat): nat requires 0 < size { Count(total, size) % U16 }

  function StoredBitmapSize(total: nat, size: nat): nat
    requires 0 < size
  {
    (((Count(total, size) + 7) % U64) / 8) % U32
  }

  // ---------------------------------------------------------------- slab.h

  function SlabOverhead(size: nat, bitmap: nat): nat
    requires 0 < size
  {
    var overhead := SLAB_HEADER + bitmap;
    overhead + (size - overhead % size)
  }

  function SlabMem(slab: nat, size: nat, bitmap: nat, idx: nat): nat
    requires 0 < size
  {
    (idx * size + SlabOverhead(size, bitmap) + slab) % U32
  }

  function SlabIndex(slab: nat, size: nat, bitmap: nat, mem: nat): nat
    requires 0 < size
  {
    (((mem - SlabOverhead(size, bitmap) - slab) % U64) / size) % U16
  }

  // ---------------------------------------------------------------- the two formulas agree

  /** The metadata ends before the objects start, and the objects end inside the region. */
  ghost predicate Fits(total: nat, size: nat, n: nat, bitmap: nat)
    requires 0 < size
  {
    SLAB_HEADER + bitmap < SlabOverhead(size, bitmap) && SlabOverhead(size, bitmap) + n * size <= total
  }

  /** slab_overhead is the next multiple of the object size after the metadata. */
  lemma OverheadIsNextMultiple(size: nat, bitmap: nat)
    requires 0 < size
    ensures SlabOverhead(size, bitmap) == ((SLAB_HEADER + bitmap) / size + 1) * size
    ensures SLAB_HEADER + bitmap < SlabOverhead(size, bitmap) <= SLAB_HEADER + bitmap + size
  {
    DivBounds(SLAB_HEADER + bitmap, size);
    Distribute(1, (SLAB_HEADER + bitmap) / size + 1, size);
  }

  lemma WholeBounds(total: nat, size: nat)
    requires 0 < size
    ensures Whole(total, size) * size <= total < Whole(total, size) * size + size
    ensures Whole(total, size) <= total
  {
    DivBounds(total, size);
    MulLe(1, size, Whole(total, size));
  }

  lemma QuotientSmall(x: nat, d: nat, k: nat)
    requires 0 < d && k * d <= x + d
    ensures k <= x + 1
  {
    if x + 1 < k {
      MulLe(x + 2, k, d);
      MulLe(1, d, x);
    }
  }

  lemma GivenUpBounds(total: nat, size: nat)
    requires 0 < size
    ensures var x, k := BitmapSize(Whole(total, size)) + SLAB_HEADER, GivenUp(total, size);
      x < k * size <= x + size && k <= x + 1
  {
    hide Whole, BitmapSize;
    var x := BitmapSize(Whole(total, size)) + SLAB_HEADER;
    DivBounds(x + size, size);
    QuotientSmall(x, size, GivenUp(total, size));
  }

  lemma NextIsAbove(j: nat, k: nat, d: nat)
    requires j < k
    ensures j * d + d <= k * d
  {
    MulLe(j + 1, k, d);
    Distribute(1, j + 1, d);
  }

  /** Only one multiple of d lies in (x, x + d]. */
  lemma SameMultiple(x: nat, d: nat, j: nat, k: nat)
    requires 0 < d && x < j * d <= x + d && x < k * d <= x + d
    ensures j == k
  {
    if j < k { NextIsAbove(j, k, d); }
    if k < j { NextIsAbove(k, j, d); }
  }

  /** Without the wrap the header fields hold the intended numbers. */
  lemma CountExact(total: nat, size: nat)
    requires 0 < size && total < U32 && GivenUp(total, size) <= Whole(total, size)
    ensures Count(total, size) == Whole(total, size) - GivenUp(total, size) < U32
    ensures StoredBitmapSize(total, size) == BitmapSize(Count(total, size)) <= BitmapSize(Whole(total, size))
    ensures StoredEntries(total, size) <= Count(total, size) <= 8 * StoredBitmapSize(total, size)
    ensures Count(total, size) < U16 ==> StoredEntries(total, size) == Count(total, size)
  {
    hide Whole, GivenUp;
    WholeBounds(total, size);
    var c := Whole(total, size) - GivenUp(total, size);
    SmallMod(c, U64);
    SmallMod(c + 7, U64);
    SmallMod((c + 7) / 8, U32);
    if c < U16 { SmallMod(c, U16); }
  }

  /** The count in numbers: of the w objects that would fit alone, the k whose bytes first exceed 8 header
      bytes and the bitmap of all w are given up. */
  lemma CountInNumbers(total: nat, size: nat, k: nat)
    requires 0 < size && total < 0x1_0000_0000 && k <= total / size
    requires var metadata := 8 + (total / size + 7) / 8; metadata < k * size <= metadata + size
    ensures StoredEntries(total, size) == (total / size - k) % 0x1_0000
    ensures StoredBitmapSize(total, size) == (total / size - k + 7) / 8
  {
    GivenUpBounds(total, size);
    SameMultiple(8 + (total / size + 7) / 8, size, k, GivenUp(total, size));
    CountExact(total, size);
  }

  lemma FitsArithmetic(total: nat, size: nat, w: nat, k: nat, n: nat, overhead: nat)
    requires w * size <= total && k <= w && n <= w - k && overhead <= k * size
    ensures overhead + n * size <= total
  {
    MulLe(n, w - k, size);
    Distribute(k, w, size);
  }

  /** When the subtraction does not go below zero, everything fits, although the count was derived
      from a larger bitmap than the one finally stored. */
  lemma CountFits(total: nat, size: nat)
    requires 0 < size && total < U32 && GivenUp(total, size) <= Whole(total, size)
    ensures Fits(total, size, StoredEntries(total, size), StoredBitmapSize(total, size))
  {
    hide Whole, Count, StoredEntries, StoredBitmapSize, GivenUp, SlabOverhead, BitmapSize;
    var w, k := Whole(total, size), GivenUp(total, size);
    var n, b := StoredEntries(total, size), StoredBitmapSize(total, size);
    WholeBounds(total, size);
    GivenUpBounds(total, size);
    CountExact(total, size);
    OverheadIsNextMultiple(size, b);
    NextMultiple(SLAB_HEADER + b, size, k);
    FitsArithmetic(total, size, w, k, n, SlabOverhead(size, b));
  }

  /** A count that wraps: the numbers involved are tiny, the stored count is not. */
  lemma WrappedCount(total: nat, size: nat)
    requires 0 < size && Whole(total, size) < GivenUp(total, size)
    ensures Whole(total, size) < StoredEntries(total, size)
  {
    hide Whole, GivenUp;
    var w, k := Whole(total, size), GivenUp(total, size);
    GivenUpBounds(total, size);
    assert w <= 11;
    assert Count(total, size) == U64 - (k - w);
  }

  /** The header fields of a count of -m. */
  lemma WrappedFields(m: nat)
    requires 1 <= m <= 12
    ensures (U64 - m) % U16 == U16 - m
    ensures ((U64 - m + 7) % U64) / 8 % U32 == if m <= 7 then 0 else U32 - 1
  {
  }

  /** What is stored for the bitmap then: nothing, or more than any region has. */
  lemma WrappedBitmap(total: nat, size: nat)
    requires 0 < size && Whole(total, size) < GivenUp(total, size)
    ensures 0 < StoredEntries(total, size) && StoredBitmapSize(total, size) in {0, U32 - 1}
  {
    hide Whole, GivenUp;
    var w, k := Whole(total, size), GivenUp(total, size);
    GivenUpBounds(total, size);
    assert w <= 11 && k - w <= 12;
    assert Count(total, size) == U64 - (k - w);
    hide Count;
    WrappedFields(k - w);
  }

  /** Objects of 2^16 bytes or more are too few for the count to be truncated. */
  lemma FewObjects(total: nat, size: nat)
    requires U16 <= size && total < U32 && GivenUp(total, size) <= Whole(total, size)
    ensures StoredEntries(total, size) == 0 ==> StoredBitmapSize(total, size) == 0
  {
    hide Whole, GivenUp, Count, StoredEntries, StoredBitmapSize;
    WholeBounds(total, size);
    CountExact(total, size);
    if U16 <= Whole(total, size) { MulLe(U16, Whole(total, size), size); }
  }

  lemma TruncatedArithmetic(total: nat, size: nat, small: nat, n: nat, metadata: nat, overhead: nat)
    requires small < U16 && small + U16 <= size && overhead + n * size <= total
    requires metadata < overhead && size <= overhead && (n == 0 ==> metadata == SLAB_HEADER)
    ensures metadata + small + n * small <= total
  {
    assert n * size == n * small + n * (size - small);
    if 0 < n { MulLe(1, n, size - small); }
  }

  /** Objects of the size that 16 bits keep are no larger, so they fit where objects of the full size do. */
  lemma TruncatedFits(total: nat, size: nat)
    requires 0 < size && size % U16 != 0 && total < U32 && GivenUp(total, size) <= Whole(total, size)
    ensures Fits(total, size % U16, StoredEntries(total, size), StoredBitmapSize(total, size))
  {
    hide Whole, Count, StoredEntries, StoredBitmapSize, GivenUp, SlabOverhead, BitmapSize;
    var small, n, b := size % U16, StoredEntries(total, size), StoredBitmapSize(total, size);
    CountFits(total, size);
    OverheadIsNextMultiple(small, b);
    OverheadIsNextMultiple(size, b);
    if U16 <= size {
      assert size - small >= U16;
      FewObjects(total, size);
      MulLe(1, (SLAB_HEADER + b) / size + 1, size);
      TruncatedArithmetic(total, size, small, n, SLAB_HEADER + b, SlabOverhead(size, b));
    } else {
      SmallMod(size, U16);
    }
  }

  /** The layout is sound exactly when at least as many objects fit as are given up; otherwise the
      count wraps to more objects than the region has bytes for. */
  lemma LayoutExact(total: nat, size: nat)
    requires 0 < size < U16 && total < U32
    ensures Fits(total, size, StoredEntries(total, size), StoredBitmapSize(total, size))
       <==> GivenUp(total, size) <= Whole(total, size)
  {
    hide Whole, Count, StoredEntries, StoredBitmapSize, GivenUp, SlabOverhead, BitmapSize;
    if GivenUp(total, size) <= Whole(total, size) {
      CountFits(total, size);
    } else {
      WrappedCount(total, size);
      WholeBounds(total, size);
      MulLe(Whole(total, size) + 1, StoredEntries(total, size), size);
      Distribute(1, Whole(total, size) + 1, size);
    }
  }

  lemma WasteArithmetic(total: nat, size: nat, w: nat, k: nat, overhead: nat, bw: nat, bn: nat, bk: nat)
    requires total < w * size + size && k <= w && k * size <= bw + SLAB_HEADER + size
    requires bw <= bn + bk && SLAB_HEADER + bn < overhead
    ensures total - (overhead + (w - k) * size) <= 2 * size - 2 + bk
  {
    Distribute(k, w, size);
  }

  lemma BitmapSizeSubadditive(x: nat, y: nat, z: nat)
    requires z == x + y
    ensures BitmapSize(z) <= BitmapSize(x) + BitmapSize(y)
  {
  }

  /** Bytes left unused after the last object. */
  lemma WasteBound(total: nat, size: nat)
    requires 0 < size < U16 && total < U32 && GivenUp(total, size) <= Whole(total, size)
    requires Whole(total, size) - GivenUp(total, size) < U16
    ensures var n, b := StoredEntries(total, size), StoredBitmapSize(total, size);
      0 <= total - (SlabOverhead(size, b) + n * size) <= 2 * size - 2 + BitmapSize(GivenUp(total, size))
  {
    hide Whole, Count, StoredEntries, StoredBitmapSize, GivenUp, SlabOverhead, BitmapSize;
    var w, k, b := Whole(total, size), GivenUp(total, size), StoredBitmapSize(total, size);
    WholeBounds(total, size);
    GivenUpBounds(total, size);
    CountExact(total, size);
    CountFits(total, size);
    OverheadIsNextMultiple(size, b);
    BitmapSizeSubadditive(w - k, k, w);
    WasteArithmetic(total, size, w, k, SlabOverhead(size, b), BitmapSize(w), b, BitmapSize(k));
  }

  // ---------------------------------------------------------------- addresses

  /** The address of object idx without truncation. */
  function ObjectAt(slab: nat, size: nat, bitmap: nat, idx: nat): nat
    requires 0 < size
  {
    slab + SlabOverhead(size, bitmap) + idx * size
  }

  lemma ObjectInRegion(slab: nat, total: nat, size: nat, n: nat, bitmap: nat, idx: nat)
    requires 0 < size && Fits(total, size, n, bitmap) && idx < n
    ensures slab + SLAB_HEADER + bitmap < ObjectAt(slab, size, bitmap, idx)
    ensures ObjectAt(slab, size, bitmap, idx) + size <= slab + total
  {
    hide SlabOverhead;
    MulLe(idx + 1, n, size);
    Distribute(1, idx + 1, size);
  }

  lemma WrapsOnce(x: nat, w: nat)
    requires x < U64
    ensures (x - w * U64) % U64 == x
  {
  }

  /** slab_index of any address: 64-bit distance from the first object, in whole objects, its low 16 bits. */
  lemma IndexOfAnyAddress(slab: nat, size: nat, bitmap: nat, idx: nat, inside: nat, w: nat, mem: nat)
    requires 0 < size && inside < size && idx * size + inside < 0x1_0000_0000_0000_0000
    requires mem == ObjectAt(slab, size, bitmap, idx) + inside - w * 0x1_0000_0000_0000_0000
    ensures SlabIndex(slab, size, bitmap, mem) == idx % 0x1_0000
  {
    hide SlabOverhead;
    QuotientOf(idx, size, inside);
    WrapsOnce(idx * size + inside, w);
    assert mem - SlabOverhead(size, bitmap) - slab == idx * size + inside - w * U64;
  }

  /** slab_mem is the object's address, and slab_index undoes it, also from any address inside the
      object. */
  lemma IndexUndoesMem(slab: nat, total: nat, size: nat, n: nat, bitmap: nat, idx: nat, inside: nat)
    requires 0 < size && n < U16 && slab + total < U32 && Fits(total, size, n, bitmap)
    requires idx < n && inside < size
    ensures SlabMem(slab, size, bitmap, idx) == ObjectAt(slab, size, bitmap, idx)
    ensures SlabIndex(slab, size, bitmap, SlabMem(slab, size, bitmap, idx) + inside) == idx
  {
    hide SlabOverhead;
    ObjectInRegion(slab, total, size, n, bitmap, idx);
    QuotientOf(idx, size, inside);
    SmallMod(idx * size + SlabOverhead(size, bitmap) + slab, U32);
    SmallMod(idx * size + inside, U64);
    SmallMod(idx, U16);
    assert SlabMem(slab, size, bitmap, idx) + inside - SlabOverhead(size, bitmap) - slab == idx * size + inside;
  }

  /** Different objects do not overlap. */
  lemma ObjectsApart(slab: nat, size: nat, bitmap: nat, i: nat, j: nat)
    requires 0 < size && i < j
    ensures ObjectAt(slab, size, bitmap, i) + size <= ObjectAt(slab, size, bitmap, j)
  {
    hide SlabOverhead;
    MulLe(i + 1, j, size);
    Distribute(1, i + 1, size);
  }
}
