/**
 malloc and calloc as their texts read, and exactly when they do what is documented.
 */
module HeapAsWrittenAlloc {
  import opened Arithmetic
  import opened Bytes
  import opened Blocks
  import opened Headers
  import opened HeapAllocator
  import opened HeapAsWritten
  import opened HeapAsWrittenSearch
  import opened HeapAsWrittenSplit

  lemma MarkedUsed(m: Memory, bs: seq<Block>, lo: nat, hi: nat, i: nat)
    requires Setting(m, bs, lo, hi) && i < |bs| && bs[i].free
    ensures var m1, taken := SetFree(m, bs[i].addr, false), bs[i := bs[i].(free := false)];
      && |m1| == |m| && Tiles(taken, lo, hi) && Linked(m1, taken) && HeaderAt(m1, NULL) == HeaderAt(m, NULL)
      && HeaderAt(m1, bs[i].addr) == HeaderOf(taken, i)
      && KeepsPayloads(m, m1, bs, lo, hi) && Unmarked(taken, i) == bs
  {
    hide HeaderAt, SetPrevious, SetNext, SetSize, SetFree, ClearHeader, HeaderWritten, KeepsPayloads;
    AtBlock(m, bs, lo, hi, i);
    TilesBelow(bs, lo, hi, i);
    var m1 := SetFree(m, bs[i].addr, false);
    WrittenReads(m, m1, bs[i].addr, HeaderOf(bs, i).(free := false), NULL);
    MarkLinks(m, m1, bs, i, false, lo, hi);
    MarkUsedTiles(bs, i, lo, hi);
    assert bs[i] in bs;
    HeaderStoreKeeps(m, m1, bs, lo, hi, bs[i].addr, HeaderOf(bs, i).(free := false));
  }

  /** allocate_block after the flag is cleared: split or leave the block whole. */
  lemma AllocateBlockSplits(m: Memory, bs: seq<Block>, lo: nat, hi: nat, i: nat, need: nat)
    requires Setting(m, bs, lo, hi) && i < |bs| && bs[i].Fits(need)
    ensures bs[i].addr + HEADER_SIZE <= |m|
    ensures var m1 := SetFree(m, bs[i].addr, false);
      AllocateBlock(m, bs[i].addr, need, hi)
      == if SpaceForNewBlk(bs[i].size, need) then InsertNewBlock(m1, bs[i].addr, need) else Done(m1)
    ensures bs[i].size < U64 && need < U64
    ensures need + HEADER_SIZE <= bs[i].size ==> (SpaceForNewBlk(bs[i].size, need) <==> bs[i].Worth(need))
    ensures bs[i].size < need + HEADER_SIZE ==> SpaceForNewBlk(bs[i].size, need)
  {
    hide HeaderAt, SetPrevious, SetNext, SetSize, SetFree, ClearHeader, HeaderWritten, Linked, Tiles, Coalesced,
      InsertNewBlock, KeepsPayloads;
    AtBlock(m, bs, lo, hi, i);
    MarkedUsed(m, bs, lo, hi, i);
    TilesAbove(bs, lo, hi, i);
  }

  predicate SplitsLast(bs: seq<Block>, i: nat, need: nat)
    requires i < |bs|
  {
    i + 1 == |bs| && bs[i].Worth(need)
  }

  lemma MarkingKeepsFrame(m: Memory, m1: Memory, m2: Memory, bs: seq<Block>, lo: nat, hi: nat)
    requires KeepsPayloads(m, m1, bs, lo, hi)
    ensures KeepsPayloads(m, m2, bs, lo, hi) <==> KeepsPayloads(m1, m2, bs, lo, hi)
  {
  }

  /** A block with room is allocated as documented, up to eight bytes at NULL when it is the last one and
      split, provided those bytes do not look like a free header. */
  lemma AllocateBlockKeeps(m: Memory, bs: seq<Block>, lo: nat, hi: nat, i: nat, need: nat)
    requires Setting(m, bs, lo, hi) && i < |bs| && bs[i].Fits(need) && HEADER_SIZE <= need
    requires need + HEADER_SIZE <= bs[i].size && (SplitsLast(bs, i, need) ==> Quiet(m))
    ensures var r := AllocateBlock(m, bs[i].addr, need, hi);
      && r.Done? && Setting(r.value, Allocate(bs, i, need), lo, hi) && KeepsAbove(8, m, r.value, bs, lo, hi)
      && (KeepsPayloads(m, r.value, bs, lo, hi)
          <==> (SplitsLast(bs, i, need) ==> HeaderAt(m, NULL).previous == bs[i].addr + need))
  {
    hide HeaderAt, SetPrevious, SetNext, SetSize, SetFree, ClearHeader, HeaderWritten, Linked, Tiles, Coalesced,
      InsertNewBlock, AllocateBlock, Split, KeepsPayloads, KeepsAbove;
    var hdr, taken := bs[i].addr, bs[i := bs[i].(free := false)];
    AllocateBlockSplits(m, bs, lo, hi, i, need);
    MarkedUsed(m, bs, lo, hi, i);
    AllocateKeeps(bs, i, need, lo, hi);
    var m1, r := SetFree(m, hdr, false), AllocateBlock(m, hdr, need, hi);
    KeepsFromZero(8, m, m1, bs, lo, hi);
    if SplitsLast(bs, i, need) {
      InsertLast(m1, taken, lo, hi, i, need);
      KeepsChain(8, m, m1, r.value, bs, lo, hi);
      MarkingKeepsFrame(m, m1, r.value, bs, lo, hi);
    } else if bs[i].Worth(need) {
      AllocateNeverMeetsFreeNeighbour(bs, i, need);
      InsertAsDocumented(m1, taken, lo, hi, i, need);
      MarkingKeepsFrame(m, m1, r.value, bs, lo, hi);
      KeepsFromZero(8, m, r.value, bs, lo, hi);
    }
  }

  /** The block leaves room for one more header; and if it is the last one and is split, the bytes at NULL
      do not look like a free header and already link to the new block. */
  predicate AllocationSafe(m: Memory, bs: seq<Block>, i: nat, need: nat)
    requires i < |bs|
  {
    && need + HEADER_SIZE <= bs[i].size
    && (SplitsLast(bs, i, need) ==> Quiet(m) && HeaderAt(m, NULL).previous == bs[i].addr + need)
  }

  /** allocate_block does what is documented exactly when the allocation is safe. */
  lemma AllocateBlockExact(m: Memory, bs: seq<Block>, lo: nat, hi: nat, i: nat, need: nat)
    requires Setting(m, bs, lo, hi) && i < |bs| && bs[i].Fits(need) && HEADER_SIZE <= need
    ensures var r := AllocateBlock(m, bs[i].addr, need, hi);
      (r.Done? && Linked(r.value, Allocate(bs, i, need)) && KeepsPayloads(m, r.value, bs, lo, hi))
      <==> AllocationSafe(m, bs, i, need)
  {
    hide HeaderAt, SetPrevious, SetNext, SetSize, SetFree, ClearHeader, HeaderWritten, Linked, Tiles, Coalesced,
      InsertNewBlock, AllocateBlock, Split, KeepsPayloads;
    var hdr, taken := bs[i].addr, bs[i := bs[i].(free := false)];
    AllocateBlockSplits(m, bs, lo, hi, i, need);
    MarkedUsed(m, bs, lo, hi, i);
    var m1, r := SetFree(m, hdr, false), AllocateBlock(m, hdr, need, hi);
    if bs[i].size < need + HEADER_SIZE {
      TightFitCorrupts(m1, taken, lo, hi, i, need);
    } else if SplitsLast(bs, i, need) && !Quiet(m) {
      InsertMeetsFreeNull(m1, taken, lo, hi, i, need);
      if r.Done? { MarkingKeepsFrame(m, m1, r.value, bs, lo, hi); }
    } else {
      AllocateBlockKeeps(m, bs, lo, hi, i, need);
    }
  }

  /** What the documentation promises of malloc: the list and pointer of the specification, and no byte
      changed outside the heap or in a payload in use. */
  ghost predicate AsDocumented(m: Memory, r: Run<(Memory, nat)>, bs: seq<Block>, spec: (seq<Block>, nat),
                               lo: nat, hi: nat) {
    && r.Done? && r.value.1 == spec.1
    && Linked(r.value.0, spec.0) && KeepsPayloads(m, r.value.0, bs, lo, hi)
  }

  /** The same, except that the first eight bytes of memory may change. */
  ghost predicate AlmostAsDocumented(m: Memory, r: Run<(Memory, nat)>, bs: seq<Block>, spec: (seq<Block>, nat),
                                     lo: nat, hi: nat) {
    && r.Done? && r.value.1 == spec.1
    && Setting(r.value.0, spec.0, lo, hi) && KeepsAbove(8, m, r.value.0, bs, lo, hi)
  }

  /** The conditions on which malloc is right: when a block is found, the rounding does not wrap and the
      allocation is safe; when none is, the search that goes on from NULL comes back with NULL. */
  ghost predicate RequestSafe(m: Memory, bs: seq<Block>, hi: nat, request: nat, turns: nat)
    requires request < U64 && |bs| <= turns
  {
    var need := AlignedSize(request);
    var i := FirstFit(bs, need);
    if i < |bs| then request < ROUNDING_LIMIT && AllocationSafe(m, bs, i, need)
    else Serves(m, NULL, need) || Escapes(m, need, hi, turns - |bs|)
  }

  /** What malloc does once the search is over. */
  lemma MallocAfterSearch(m: Memory, bs: seq<Block>, lo: nat, hi: nat, request: nat, turns: nat)
    requires Setting(m, bs, lo, hi) && request < U64 && |bs| <= turns
    ensures var need := AlignedSize(request);
      var i, r := FirstFit(bs, need), Malloc(m, lo, hi, request, turns);
      if i < |bs| then
        && bs[i].addr != NULL
        && r == match AllocateBlock(m, bs[i].addr, need, hi)
                case Done(m') => Done((m', bs[i].Payload()))
                case Fault => Fault
                case Running => Running
      else if GetFreeBlock(m, lo, need, hi, turns) == Done(NULL) then r == Done((m, NULL))
      else r.Done? ==> r.value.1 != NULL
  {
    hide HeaderAt, Linked, Coalesced, AllocateBlock, GetFreeBlock;
    var need := AlignedSize(request);
    var i := FirstFit(bs, need);
    if i < |bs| {
      SearchFinds(m, bs, lo, hi, need, 0, turns);
      AtBlock(m, bs, lo, hi, 0);
      TilesBelow(bs, lo, hi, i);
    }
  }

  /** malloc meets its documentation exactly when the request is safe, for every request and whatever the
      bytes at NULL are. */
  lemma MallocExact(m: Memory, bs: seq<Block>, lo: nat, hi: nat, request: nat, turns: nat)
    requires Setting(m, bs, lo, hi) && request < U64 && |bs| <= turns
    ensures AsDocumented(m, Malloc(m, lo, hi, request, turns), bs, MallocSpec(bs, request), lo, hi)
       <==> RequestSafe(m, bs, hi, request, turns)
  {
    hide HeaderAt, Malloc, AllocateBlock, GetFreeBlock, Allocate, AllocationSafe, Escapes, Serves, Coalesced;
    AlignedSizeGrowth(request);
    var need := AlignedSize(request);
    var i := FirstFit(bs, need);
    MallocAfterSearch(m, bs, lo, hi, request, turns);
    if i == |bs| {
      NullExactly(m, bs, lo, hi, need, turns);
    } else if request < ROUNDING_LIMIT {
      AllocateBlockExact(m, bs, lo, hi, i, need);
    }
  }

  /** What survives in any case: a request that finds a block with room gets it as documented, and only
      the first eight bytes of memory can differ, unless the bytes at NULL look like a free header. */
  lemma MallocKeeps(m: Memory, bs: seq<Block>, lo: nat, hi: nat, request: nat, turns: nat)
    requires Setting(m, bs, lo, hi) && Quiet(m) && request < ROUNDING_LIMIT && |bs| <= turns
    requires var need := AlignedSize(request);
      var i := FirstFit(bs, need); i < |bs| && need + HEADER_SIZE <= bs[i].size
    ensures var r := Malloc(m, lo, hi, request, turns);
      AlmostAsDocumented(m, r, bs, MallocSpec(bs, request), lo, hi) && Quiet(r.value.0)
  {
    hide HeaderAt, Malloc, AllocateBlock, GetFreeBlock, Allocate, Linked, Coalesced;
    AlignedSizeGrowth(request);
    var i := FirstFit(bs, AlignedSize(request));
    MallocAfterSearch(m, bs, lo, hi, request, turns);
    AllocateBlockKeeps(m, bs, lo, hi, i, AlignedSize(request));
    KeepsNullHeader(m, Malloc(m, lo, hi, request, turns).value.0, bs, lo, hi);
  }

  /** The first malloc on a fresh heap already breaks its promise: it stores the address of the block it
      splits off in the first eight bytes of memory. */
  lemma FirstMallocWritesNull(m: Memory, lo: nat, hi: nat, request: nat, turns: nat)
    requires lo <= hi
    requires var bs := [Block(lo, hi - lo, true)];
      && Setting(m, bs, lo, hi) && Quiet(m) && HeaderAt(m, NULL).previous == NULL
      && request < ROUNDING_LIMIT && bs[0].Worth(AlignedSize(request)) && 1 <= turns
    ensures var bs, r := [Block(lo, hi - lo, true)], Malloc(m, lo, hi, request, turns);
      && AlmostAsDocumented(m, r, bs, MallocSpec(bs, request), lo, hi) && r.value.1 == lo + HEADER_SIZE
      && !KeepsPayloads(m, r.value.0, bs, lo, hi)
  {
    hide HeaderAt, Malloc, AllocateBlock, GetFreeBlock, Allocate, Linked, Coalesced, KeepsPayloads, KeepsAbove;
    var bs := [Block(lo, hi - lo, true)];
    AlignedSizeGrowth(request);
    assert bs[0].Fits(AlignedSize(request));
    MallocKeeps(m, bs, lo, hi, request, turns);
    MallocAfterSearch(m, bs, lo, hi, request, turns);
    AllocateBlockKeeps(m, bs, lo, hi, 0, AlignedSize(request));
  }

  // ---------------------------------------------------------------- calloc

  ghost predicate Zeroed(m: Memory, p: nat, n: int) {
    p + n <= |m| && forall q :: p <= q < p + n ==> m[q] == 0
  }

  /** A store inside the payload just handed out changes neither what the list is nor what was kept. */
  lemma GrantedStore(k: nat, m: Memory, m1: Memory, m2: Memory, bs: seq<Block>, lo: nat, hi: nat, i: nat,
                     request: nat)
    requires Setting(m, bs, lo, hi) && request < ROUNDING_LIMIT && i < |bs| && bs[i].Fits(AlignedSize(request))
    requires SameOutside(m1, m2, bs[i].Payload(), request)
    ensures bs[i].Payload() + request <= hi
    ensures var cs := Allocate(bs, i, AlignedSize(request)); Linked(m1, cs) <==> Linked(m2, cs)
    ensures KeepsAbove(k, m, m1, bs, lo, hi) <==> KeepsAbove(k, m, m2, bs, lo, hi)
  {
    hide HeaderAt, Linked, Tiles, Allocate, Coalesced;
    var need, p := AlignedSize(request), bs[i].Payload();
    AlignedSizeGrowth(request);
    GrantedRoom(bs, i, request, lo, hi);
    AllocateKeeps(bs, i, need, lo, hi);
    var cs := Allocate(bs, i, need);
    if Linked(m1, cs) { PayloadStore(m1, m2, cs, i, p, request, lo, hi); }
    if Linked(m2, cs) { PayloadStore(m2, m1, cs, i, p, request, lo, hi); }
    FreeStoreKeeps(m1, m1, m2, bs, i, p, request, lo, hi);
  }

  /** The product does not wrap, or no block is found for what is left of it; and that request is safe. */
  ghost predicate CallocSafe(m: Memory, bs: seq<Block>, hi: nat, count: nat, size: nat, turns: nat)
    requires |bs| <= turns
  {
    var total := count * size % U64;
    RequestSafe(m, bs, hi, total, turns) && (count * size < U64 || FirstFit(bs, AlignedSize(total)) == |bs|)
  }

  lemma MallocSpecCases(bs: seq<Block>, request: nat)
    requires request < U64
    ensures var i, spec := FirstFit(bs, AlignedSize(request)), MallocSpec(bs, request);
      if i < |bs| && request < ROUNDING_LIMIT
      then spec == (Allocate(bs, i, AlignedSize(request)), bs[i].Payload())
      else spec == (bs, NULL)
  {
  }

  lemma ZerosStored(m: Memory, p: nat, n: nat)
    requires p + n <= |m|
    ensures SameOutside(m, Store(m, p, Zeros(n)), p, n) && Zeroed(Store(m, p, Zeros(n)), p, n)
  {
    StoreEffect(m, p, Zeros(n));
    var m' := Store(m, p, Zeros(n));
    assert forall q :: p <= q < p + n ==> m'[q] == m'[p..p + n][q - p];
  }

  lemma KeepsLength(m: Memory, m1: Memory, bs: seq<Block>, lo: nat, hi: nat)
    ensures KeepsPayloads(m, m1, bs, lo, hi) || KeepsAbove(8, m, m1, bs, lo, hi) ==> |m1| == |m|
  {
  }

  /** When the product fits 64 bits, calloc is right whenever malloc is. */
  lemma CallocFollowsMalloc(m: Memory, bs: seq<Block>, lo: nat, hi: nat, count: nat, size: nat, turns: nat)
    requires Setting(m, bs, lo, hi) && count * size < U64
    ensures var r0, r := Malloc(m, lo, hi, count * size, turns), Calloc(m, lo, hi, count, size, turns);
      var spec := CallocSpec(bs, count, size);
      && (AsDocumented(m, r, bs, spec, lo, hi) <==> AsDocumented(m, r0, bs, spec, lo, hi))
      && (AlmostAsDocumented(m, r0, bs, spec, lo, hi) ==> AlmostAsDocumented(m, r, bs, spec, lo, hi))
      && (r.Done? && r.value.1 != NULL ==> Zeroed(r.value.0, r.value.1, count * size))
  {
    hide HeaderAt, Malloc, Allocate, Linked, Coalesced, KeepsPayloads, KeepsAbove, MallocSpec, Zeroed, Store, Tiles;
    var total := count * size;
    SmallMod(total, U64);
    var r0, spec := Malloc(m, lo, hi, total, turns), MallocSpec(bs, total);
    MallocSpecCases(bs, total);
    if r0.Done? && r0.value.1 != NULL {
      var m1, p := r0.value.0, r0.value.1;
      if p + total <= |m1| {
        ZerosStored(m1, p, total);
      }
      if p == spec.1 {
        var i, m2 := FirstFit(bs, AlignedSize(total)), if p + total <= |m1| then Store(m1, p, Zeros(total)) else m1;
        GrantedStore(0, m, m1, m2, bs, lo, hi, i, total);
        GrantedStore(8, m, m1, m2, bs, lo, hi, i, total);
        KeepsFromZero(0, m, m1, bs, lo, hi);
        KeepsFromZero(0, m, m2, bs, lo, hi);
        KeepsLength(m, m1, bs, lo, hi);
      }
    }
  }

  /** A product that wraps: documented is NULL, and the text gives NULL only when it finds no block. */
  lemma WrappedCalloc(m: Memory, bs: seq<Block>, lo: nat, hi: nat, count: nat, size: nat, turns: nat)
    requires Setting(m, bs, lo, hi) && |bs| <= turns && U64 <= count * size
    ensures CallocSpec(bs, count, size) == (bs, NULL)
    ensures var total, r := count * size % U64, Calloc(m, lo, hi, count, size, turns);
      if FirstFit(bs, AlignedSize(total)) < |bs| then r.Done? ==> r.value.1 != NULL
      else AsDocumented(m, r, bs, (bs, NULL), lo, hi) <==> RequestSafe(m, bs, hi, total, turns)
  {
    hide HeaderAt, Malloc, Allocate, Linked, Coalesced, GetFreeBlock, AllocateBlock, RequestSafe, KeepsPayloads,
      MallocSpec;
    var total := count * size % U64;
    MallocAfterSearch(m, bs, lo, hi, total, turns);
    MallocExact(m, bs, lo, hi, total, turns);
    MallocSpecCases(bs, total);
  }

  /** calloc meets its documentation, zeroed bytes included, exactly when the request is safe and the
      product does not wrap to a size for which there is a block. */
  lemma CallocExact(m: Memory, bs: seq<Block>, lo: nat, hi: nat, count: nat, size: nat, turns: nat)
    requires Setting(m, bs, lo, hi) && |bs| <= turns
    ensures var r := Calloc(m, lo, hi, count, size, turns);
      && AsDocumented(m, r, bs, CallocSpec(bs, count, size), lo, hi)
      && (r.value.1 != NULL ==> Zeroed(r.value.0, r.value.1, count * size))
      <==> CallocSafe(m, bs, hi, count, size, turns)
  {
    hide Calloc, Malloc, Setting, RequestSafe, MallocSpec, Zeroed, Linked, KeepsPayloads;
    if count * size < U64 {
      SmallMod(count * size, U64);
      CallocFollowsMalloc(m, bs, lo, hi, count, size, turns);
      MallocExact(m, bs, lo, hi, count * size, turns);
    } else {
      WrappedCalloc(m, bs, lo, hi, count, size, turns);
    }
  }

  /** What survives in any case, as for malloc. */
  lemma CallocKeeps(m: Memory, bs: seq<Block>, lo: nat, hi: nat, count: nat, size: nat, turns: nat)
    requires Setting(m, bs, lo, hi) && Quiet(m) && count * size < ROUNDING_LIMIT && |bs| <= turns
    requires var need := AlignedSize(count * size);
      var i := FirstFit(bs, need); i < |bs| && need + HEADER_SIZE <= bs[i].size
    ensures var r := Calloc(m, lo, hi, count, size, turns);
      && AlmostAsDocumented(m, r, bs, CallocSpec(bs, count, size), lo, hi) && Quiet(r.value.0)
      && Zeroed(r.value.0, r.value.1, count * size)
  {
    hide HeaderAt, Calloc, Malloc, Allocate, Linked, Coalesced, KeepsPayloads, KeepsAbove, MallocSpec, Zeroed, Tiles;
    MallocKeeps(m, bs, lo, hi, count * size, turns);
    CallocFollowsMalloc(m, bs, lo, hi, count, size, turns);
    MallocSpecCases(bs, count * size);
    KeepsNullHeader(m, Calloc(m, lo, hi, count, size, turns).value.0, bs, lo, hi);
  }

  /** 2^32 objects of 2^32 bytes each fit any fresh heap of 96 bytes, as the product wraps to zero. */
  lemma CallocWrapsToSmallBlock(m: Memory, lo: nat, hi: nat, turns: nat)
    requires lo + 3 * HEADER_SIZE <= hi && 1 <= turns
    requires Setting(m, [Block(lo, hi - lo, true)], lo, hi) && Quiet(m)
    ensures var r := Calloc(m, lo, hi, U32, U32, turns); r.Done? && r.value.1 == lo + HEADER_SIZE
    ensures CallocSpec([Block(lo, hi - lo, true)], U32, U32).1 == NULL
  {
    hide HeaderAt, Malloc, Allocate, Linked, Coalesced, KeepsPayloads, KeepsAbove, Tiles;
    var bs := [Block(lo, hi - lo, true)];
    assert U32 * U32 == U64;
    assert AlignedSize(0) == 2 * HEADER_SIZE && bs[0].Fits(2 * HEADER_SIZE);
    assert FirstFit(bs, AlignedSize(0)) == 0;
    MallocKeeps(m, bs, lo, hi, 0, turns);
    KeepsLength(m, Malloc(m, lo, hi, 0, turns).value.0, bs, lo, hi);
  }
}
