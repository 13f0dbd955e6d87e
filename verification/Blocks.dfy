/**
 The heap as its comments describe it: a sequence of blocks in address order.

 A block's size counts its own 32-byte header.  This module knows nothing about memory; it states
 what allocation and release mean and proves what every run of them keeps.
 */
module Blocks {
  import opened Arithmetic

  const HEADER_SIZE: nat := 32

  datatype Block = Block(addr: nat, size: nat, free: bool) {
    function End(): nat { addr + size }
    function Payload(): nat { addr + HEADER_SIZE }
    predicate Fits(need: nat) { free && need <= size }
    /** Splitting is sensible: more than two headers' worth stays behind after a new header. */
    predicate Worth(need: nat) { need + HEADER_SIZE + 2 * HEADER_SIZE < size }
  }

  // ---------------------------------------------------------------- shape

  /** The blocks cover [lo, hi) exactly, without gap or overlap, each large enough for its header. */
  ghost predicate Tiles(bs: seq<Block>, lo: nat, hi: nat) {
    && |bs| > 0 && bs[0].addr == lo && bs[|bs| - 1].End() == hi
    && (forall i :: 0 <= i < |bs| ==> HEADER_SIZE <= bs[i].size)
    && (forall i, j :: 0 <= i && j == i + 1 < |bs| ==> bs[i].End() == bs[j].addr)
  }

  /** No two neighbours are both free. */
  ghost predicate Coalesced(bs: seq<Block>) {
    forall i, j :: 0 <= i && j == i + 1 < |bs| ==> !(bs[i].free && bs[j].free)
  }

  ghost predicate HeadersAligned(bs: seq<Block>) {
    forall i :: 0 <= i < |bs| ==> bs[i].addr % HEADER_SIZE == 0
  }

  function TotalSize(bs: seq<Block>): nat {
    if |bs| == 0 then 0 else bs[0].size + TotalSize(bs[1..])
  }

  lemma {:induction false} TilesBelow(bs: seq<Block>, lo: nat, hi: nat, i: nat)
    requires Tiles(bs, lo, hi) && i < |bs|
    ensures lo <= bs[i].addr
  {
    if 0 < i {
      TilesBelow(bs, lo, hi, i - 1);
      assert bs[i - 1].End() == bs[i].addr;
    }
  }

  lemma {:induction false} TilesAbove(bs: seq<Block>, lo: nat, hi: nat, i: nat)
    requires Tiles(bs, lo, hi) && i < |bs|
    ensures bs[i].End() <= hi
    decreases |bs| - i
  {
    if i + 1 < |bs| {
      assert bs[i].End() == bs[i + 1].addr;
      TilesAbove(bs, lo, hi, i + 1);
    }
  }

  lemma {:induction false} TilesInOrder(bs: seq<Block>, lo: nat, hi: nat, i: nat, j: nat)
    requires Tiles(bs, lo, hi) && i < j < |bs|
    ensures bs[i].End() <= bs[j].addr
    decreases j - i
  {
    if i + 1 < j {
      TilesInOrder(bs, lo, hi, i, j - 1);
      assert bs[j - 1].End() == bs[j].addr;
    }
  }

  /** Everything the tiling says about positions, at once. */
  lemma TilesSpread(bs: seq<Block>, lo: nat, hi: nat)
    requires Tiles(bs, lo, hi)
    ensures forall i :: 0 <= i < |bs| ==> lo <= bs[i].addr && bs[i].End() <= hi
    ensures forall i, j :: 0 <= i < j < |bs| ==> bs[i].End() <= bs[j].addr
  {
    forall i | 0 <= i < |bs| ensures lo <= bs[i].addr && bs[i].End() <= hi {
      TilesBelow(bs, lo, hi, i);
      TilesAbove(bs, lo, hi, i);
    }
    forall i, j | 0 <= i < j < |bs| ensures bs[i].End() <= bs[j].addr {
      TilesInOrder(bs, lo, hi, i, j);
    }
  }

  /** Conservation: the sizes of the blocks of a tiling add up to the heap. */
  lemma {:induction false} TilesTotalSize(bs: seq<Block>, lo: nat, hi: nat)
    requires Tiles(bs, lo, hi)
    ensures TotalSize(bs) == hi - lo
  {
    if |bs| > 1 {
      assert bs[0].End() == bs[1].addr;
      TilesTotalSize(bs[1..], bs[1].addr, hi);
    } else {
      assert bs[1..] == [];
    }
  }

  // ---------------------------------------------------------------- requests

  /** The rounding of a request, in 64-bit arithmetic. */
  function AlignedSize(size: nat): nat
    requires size < U64
  {
    var ret := (size + HEADER_SIZE) % U64;
    (ret + (HEADER_SIZE - size % HEADER_SIZE)) % U64
  }

  /** The largest request whose rounding stays within 64 bits is U64 - 65. */
  const ROUNDING_LIMIT: nat := U64 - 2 * HEADER_SIZE

  /** A request grows by 33 to 64 bytes, to a multiple of 32, exactly when the sum does not wrap;
      past that limit the result is 0 or a bare header. */
  lemma AlignedSizeGrowth(size: nat)
    requires size < U64
    ensures AlignedSize(size) % HEADER_SIZE == 0
    ensures size < ROUNDING_LIMIT <==> size + 33 <= AlignedSize(size) <= size + 64
    ensures size >= ROUNDING_LIMIT ==> AlignedSize(size) in {0, HEADER_SIZE}
  {
  }

  // ---------------------------------------------------------------- allocation

  /** The position of the lowest free block that holds need bytes; |bs| when there is none. */
  function FirstFit(bs: seq<Block>, need: nat): (i: nat)
    ensures i <= |bs|
    ensures i < |bs| ==> bs[i].Fits(need)
    ensures forall j :: 0 <= j < i ==> !bs[j].Fits(need)
  {
    if |bs| == 0 || bs[0].Fits(need) then 0 else 1 + FirstFit(bs[1..], need)
  }

  /** Cuts block i after need bytes; the remainder is free and swallows a free right neighbour. */
  function Split(bs: seq<Block>, i: nat, need: nat): seq<Block>
    requires i < |bs| && need <= bs[i].size
  {
    var b := bs[i];
    var rest := Block(b.addr + need, b.size - need, true);
    if i + 1 < |bs| && bs[i + 1].free then
      bs[..i] + [b.(size := need), rest.(size := rest.size + bs[i + 1].size)] + bs[i + 2..]
    else
      bs[..i] + [b.(size := need), rest] + bs[i + 1..]
  }

  function Allocate(bs: seq<Block>, i: nat, need: nat): seq<Block>
    requires i < |bs| && need <= bs[i].size
  {
    var taken := bs[i := bs[i].(free := false)];
    if bs[i].Worth(need) then Split(taken, i, need) else taken
  }

  // ---------------------------------------------------------------- release

  /** Block i absorbs its right neighbour. */
  function Merge(bs: seq<Block>, i: nat): seq<Block>
    requires i + 1 < |bs|
  {
    bs[..i] + [bs[i].(size := bs[i].size + bs[i + 1].size)] + bs[i + 2..]
  }

  function FuseRight(bs: seq<Block>, i: nat): (fs: seq<Block>)
    requires i < |bs|
    ensures i < |fs|
    decreases |bs|
  {
    if i + 1 < |bs| && bs[i + 1].free then FuseRight(Merge(bs, i), i) else bs
  }

  lemma {:induction false} FuseRightPrefix(bs: seq<Block>, i: nat)
    requires i < |bs|
    ensures FuseRight(bs, i)[..i] == bs[..i]
    decreases |bs|
  {
    if i + 1 < |bs| && bs[i + 1].free { FuseRightPrefix(Merge(bs, i), i); }
  }

  function FuseLeft(bs: seq<Block>, i: nat): seq<Block>
    requires i < |bs|
    decreases |bs|
  {
    if 0 < i && bs[i - 1].free then FuseLeft(Merge(bs, i - 1), i - 1) else bs
  }

  function Release(bs: seq<Block>, i: nat): seq<Block>
    requires i < |bs|
  {
    var freed := bs[i := bs[i].(free := true)];
    FuseLeft(FuseRight(freed, i), i)
  }

  /** The reference meaning of coalescing, independent of where the walk starts: every maximal run
      of free blocks becomes one. */
  function Coalesce(bs: seq<Block>): (cs: seq<Block>)
    ensures |bs| > 0 ==> |cs| > 0 && cs[0].addr == bs[0].addr && cs[0].free == bs[0].free
  {
    if |bs| <= 1 then bs
    else
      var rest := Coalesce(bs[1..]);
      if bs[0].free && rest[0].free then [bs[0].(size := bs[0].size + rest[0].size)] + rest[1..]
      else [bs[0]] + rest
  }

  lemma {:induction false} CoalesceFixesCoalesced(bs: seq<Block>)
    requires Coalesced(bs)
    ensures Coalesce(bs) == bs
  {
    if |bs| > 1 {
      assert Coalesced(bs[1..]);
      CoalesceFixesCoalesced(bs[1..]);
      assert !(bs[0].free && bs[1].free);
    }
  }

  lemma CoalesceMergedHead(bs: seq<Block>)
    requires 1 < |bs| && bs[0].free && bs[1].free
    ensures Coalesce(Merge(bs, 0)) == Coalesce(bs)
  {
  }

  /** Merging two free neighbours is invisible to the reference meaning. */
  lemma {:induction false} CoalesceSeesThroughMerge(bs: seq<Block>, i: nat)
    requires i + 1 < |bs| && bs[i].free && bs[i + 1].free
    ensures Coalesce(Merge(bs, i)) == Coalesce(bs)
  {
    if i == 0 {
      CoalesceMergedHead(bs);
    } else {
      assert Merge(bs, i)[1..] == Merge(bs[1..], i - 1);
      CoalesceSeesThroughMerge(bs[1..], i - 1);
    }
  }

  /** All neighbours except the pairs touching i are coalesced. */
  ghost predicate CoalescedBut(bs: seq<Block>, i: int) {
    forall k, j :: 0 <= k && j == k + 1 < |bs| && k != i && j != i ==> !(bs[k].free && bs[j].free)
  }

  lemma {:induction false} FuseRightCoalesces(bs: seq<Block>, i: nat)
    requires i < |bs| && bs[i].free && CoalescedBut(bs, i)
    ensures var fs := FuseRight(bs, i);
      && i < |fs| && fs[i].free && CoalescedBut(fs, i) && (i + 1 < |fs| ==> !fs[i + 1].free)
      && Coalesce(fs) == Coalesce(bs)
    decreases |bs|
  {
    if i + 1 < |bs| && bs[i + 1].free {
      CoalesceSeesThroughMerge(bs, i);
      FuseRightCoalesces(Merge(bs, i), i);
    }
  }

  lemma {:induction false} FuseLeftCoalesces(bs: seq<Block>, i: nat)
    requires i < |bs| && bs[i].free && CoalescedBut(bs, i) && (i + 1 < |bs| ==> !bs[i + 1].free)
    ensures Coalesced(FuseLeft(bs, i)) && Coalesce(FuseLeft(bs, i)) == Coalesce(bs)
    decreases |bs|
  {
    if 0 < i && bs[i - 1].free {
      CoalesceSeesThroughMerge(bs, i - 1);
      FuseLeftCoalesces(Merge(bs, i - 1), i - 1);
    }
  }

  /** The local two-way walk from the freed block computes the global meaning. */
  lemma ReleaseIsCoalesce(bs: seq<Block>, i: nat)
    requires i < |bs| && Coalesced(bs)
    ensures Coalesced(Release(bs, i))
    ensures Release(bs, i) == Coalesce(bs[i := bs[i].(free := true)])
  {
    var freed := bs[i := bs[i].(free := true)];
    FuseRightCoalesces(freed, i);
    FuseLeftCoalesces(FuseRight(freed, i), i);
    CoalesceFixesCoalesced(Release(bs, i));
  }

  // ---------------------------------------------------------------- what each operation keeps

  /** The blocks in use. */
  function Allocated(bs: seq<Block>): set<Block> {
    set b | b in bs && !b.free
  }

  lemma MergeKeeps(bs: seq<Block>, i: nat, lo: nat, hi: nat)
    requires Tiles(bs, lo, hi) && i + 1 < |bs| && bs[i].free && bs[i + 1].free
    ensures Tiles(Merge(bs, i), lo, hi) && Allocated(Merge(bs, i)) == Allocated(bs)
    ensures HeadersAligned(bs) ==> HeadersAligned(Merge(bs, i))
  {
  }

  lemma {:induction false} FuseRightKeeps(bs: seq<Block>, i: nat, lo: nat, hi: nat)
    requires Tiles(bs, lo, hi) && i < |bs| && bs[i].free
    ensures var fs := FuseRight(bs, i);
      && Tiles(fs, lo, hi) && Allocated(fs) == Allocated(bs) && i < |fs| && fs[i].free
      && (HeadersAligned(bs) ==> HeadersAligned(fs))
    decreases |bs|
  {
    if i + 1 < |bs| && bs[i + 1].free {
      MergeKeeps(bs, i, lo, hi);
      FuseRightKeeps(Merge(bs, i), i, lo, hi);
    }
  }

  lemma {:induction false} FuseLeftKeeps(bs: seq<Block>, i: nat, lo: nat, hi: nat)
    requires Tiles(bs, lo, hi) && i < |bs| && bs[i].free
    ensures var fs := FuseLeft(bs, i);
      && Tiles(fs, lo, hi) && Allocated(fs) == Allocated(bs)
      && (HeadersAligned(bs) ==> HeadersAligned(fs))
    decreases |bs|
  {
    if 0 < i && bs[i - 1].free {
      MergeKeeps(bs, i - 1, lo, hi);
      FuseLeftKeeps(Merge(bs, i - 1), i - 1, lo, hi);
    }
  }

  lemma MarkFreeAllocated(bs: seq<Block>, i: nat)
    requires i < |bs| && forall j :: 0 <= j < |bs| && j != i ==> bs[j] != bs[i]
    ensures Allocated(bs[i := bs[i].(free := true)]) == Allocated(bs) - {bs[i]}
  {
    var freed := bs[i := bs[i].(free := true)];
    forall b ensures b in Allocated(freed) <==> b in Allocated(bs) - {bs[i]} {
      if b in Allocated(bs) - {bs[i]} {
        var k :| 0 <= k < |bs| && bs[k] == b;
        assert freed[k] == b;
      }
    }
  }

  lemma MarkFreeKeeps(bs: seq<Block>, i: nat, lo: nat, hi: nat)
    requires Tiles(bs, lo, hi) && i < |bs|
    ensures var freed := bs[i := bs[i].(free := true)];
      Tiles(freed, lo, hi) && Allocated(freed) == Allocated(bs) - {bs[i]}
  {
    hide Allocated;
    forall j | 0 <= j < |bs| && j != i ensures bs[j] != bs[i] {
      if i < j { TilesInOrder(bs, lo, hi, i, j); } else { TilesInOrder(bs, lo, hi, j, i); }
    }
    MarkFreeAllocated(bs, i);
  }

  /** Release keeps the tiling, frees exactly the one block and disturbs no other block in use. */
  lemma ReleaseKeeps(bs: seq<Block>, i: nat, lo: nat, hi: nat)
    requires Tiles(bs, lo, hi) && i < |bs|
    ensures Tiles(Release(bs, i), lo, hi)
    ensures Allocated(Release(bs, i)) == Allocated(bs) - {bs[i]}
    ensures HeadersAligned(bs) ==> HeadersAligned(Release(bs, i))
  {
    var freed := bs[i := bs[i].(free := true)];
    MarkFreeKeeps(bs, i, lo, hi);
    FuseRightKeeps(freed, i, lo, hi);
    FuseLeftKeeps(FuseRight(freed, i), i, lo, hi);
  }

  /** In a coalesced heap the free neighbour that Split would swallow is never there. */
  lemma AllocateNeverMeetsFreeNeighbour(bs: seq<Block>, i: nat, need: nat)
    requires i < |bs| && bs[i].Fits(need) && Coalesced(bs) && bs[i].Worth(need)
    ensures i + 1 < |bs| ==> !bs[i + 1].free
    ensures Allocate(bs, i, need)
         == bs[..i] + [Block(bs[i].addr, need, false), Block(bs[i].addr + need, bs[i].size - need, true)] + bs[i + 1..]
  {
  }

  /** The block handed out for a request of need bytes at position i. */
  function Granted(bs: seq<Block>, i: nat, need: nat): Block
    requires i < |bs|
  {
    Block(bs[i].addr, if bs[i].Worth(need) then need else bs[i].size, false)
  }

  /** cs is bs with block i cut in two, the left part used and the right part free. */
  ghost predicate CutAt(bs: seq<Block>, cs: seq<Block>, i: nat, need: nat) {
    && i < |bs| && |cs| == |bs| + 1 && need + HEADER_SIZE <= bs[i].size
    && cs[i] == Block(bs[i].addr, need, false)
    && cs[i + 1] == Block(bs[i].addr + need, bs[i].size - need, true)
    && (forall k :: 0 <= k < i ==> cs[k] == bs[k])
    && (forall k :: i + 1 < k < |cs| ==> cs[k] == bs[k - 1])
  }

  lemma SpliceIsCut(bs: seq<Block>, cs: seq<Block>, i: nat, need: nat)
    requires i < |bs| && need + HEADER_SIZE <= bs[i].size
    requires cs == bs[..i] + [Block(bs[i].addr, need, false), Block(bs[i].addr + need, bs[i].size - need, true)]
                   + bs[i + 1..]
    ensures CutAt(bs, cs, i, need)
  {
  }

  lemma AllocatePositions(bs: seq<Block>, i: nat, need: nat)
    requires i < |bs| && bs[i].Fits(need) && Coalesced(bs)
    ensures if bs[i].Worth(need) then CutAt(bs, Allocate(bs, i, need), i, need)
            else Allocate(bs, i, need) == bs[i := bs[i].(free := false)]
    ensures i < |Allocate(bs, i, need)| && Allocate(bs, i, need)[i] == Granted(bs, i, need)
  {
    if bs[i].Worth(need) {
      AllocateNeverMeetsFreeNeighbour(bs, i, need);
      hide Allocate, Coalesced;
      SpliceIsCut(bs, Allocate(bs, i, need), i, need);
    }
  }

  /** A rounded request is the number of 32-byte units it fills or starts, and one more for the header. */
  lemma AlignedSizeIs(request: nat)
    requires request < 0x1_0000_0000_0000_0000 - 64
    ensures AlignedSize(request) == 32 * (request / 32 + 2)
  {
  }

  /** When a block is split: exactly when more than 96 bytes would be left.  A block left whole exceeds the
      need by at most 96 bytes, a new free block has more than 96. */
  lemma SplitsExactly(bs: seq<Block>, i: nat, need: nat)
    requires Coalesced(bs) && i < |bs| && bs[i].free && need <= bs[i].size
    ensures var b := bs[i];
      Allocate(bs, i, need)
      == if b.size <= need + 96 then bs[i := Block(b.addr, b.size, false)]
         else bs[..i] + [Block(b.addr, need, false), Block(b.addr + need, b.size - need, true)] + bs[i + 1..]
  {
    AllocatePositions(bs, i, need);
    if bs[i].Worth(need) { AllocateNeverMeetsFreeNeighbour(bs, i, need); }
  }

  /** malloc: the blocks afterwards and the pointer handed out, 0 for NULL. */
  function MallocSpec(bs: seq<Block>, request: nat): (seq<Block>, nat)
    requires request < U64
  {
    var need := AlignedSize(request);
    var i := FirstFit(bs, need);
    if request < ROUNDING_LIMIT && i < |bs| then (Allocate(bs, i, need), bs[i].Payload()) else (bs, 0)
  }

  lemma FirstFitIs(bs: seq<Block>, need: nat, i: nat)
    requires i <= |bs| && (i < |bs| ==> bs[i].Fits(need)) && forall j :: 0 <= j < i ==> !bs[j].Fits(need)
    ensures FirstFit(bs, need) == i
  {
  }

  /** malloc in numbers: the lowest free block with 32 * (request / 32 + 2) bytes, its address plus 32 for the
      pointer, cut when more than 96 bytes are left. */
  lemma MallocInNumbers(bs: seq<Block>, request: nat, i: nat)
    requires Coalesced(bs) && request < 0x1_0000_0000_0000_0000 - 64 && i <= |bs|
    requires var n := 32 * (request / 32 + 2);
      && (i < |bs| ==> bs[i].free && n <= bs[i].size)
      && forall j :: 0 <= j < i ==> !(bs[j].free && n <= bs[j].size)
    ensures var n := 32 * (request / 32 + 2);
      MallocSpec(bs, request)
      == if i == |bs| then (bs, 0)
         else if bs[i].size <= n + 96 then (bs[i := Block(bs[i].addr, bs[i].size, false)], bs[i].addr + 32)
         else (bs[..i] + [Block(bs[i].addr, n, false), Block(bs[i].addr + n, bs[i].size - n, true)] + bs[i + 1..],
               bs[i].addr + 32)
  {
    AlignedSizeIs(request);
    var n := 32 * (request / 32 + 2);
    FirstFitIs(bs, n, i);
    if i < |bs| { SplitsExactly(bs, i, n); }
  }

  /** calloc: as malloc for the product, which must not wrap. */
  function CallocSpec(bs: seq<Block>, count: nat, size: nat): (seq<Block>, nat) {
    if count * size < U64 then MallocSpec(bs, count * size) else (bs, 0)
  }

  /** calloc in numbers: NULL for a product of 2^64 or more, otherwise malloc of the product. */
  lemma CallocInNumbers(bs: seq<Block>, count: nat, size: nat)
    ensures CallocSpec(bs, count, size)
         == if 0x1_0000_0000_0000_0000 <= count * size then (bs, 0) else MallocSpec(bs, count * size)
  {
  }

  lemma AllocateAllocated(bs: seq<Block>, i: nat, need: nat)
    requires i < |bs| && bs[i].Fits(need) && Coalesced(bs)
    ensures Allocated(Allocate(bs, i, need)) == Allocated(bs) + {Granted(bs, i, need)}
  {
  }

  lemma CutKeeps(bs: seq<Block>, cs: seq<Block>, i: nat, need: nat, lo: nat, hi: nat)
    requires Tiles(bs, lo, hi) && Coalesced(bs) && CutAt(bs, cs, i, need) && bs[i].free && HEADER_SIZE <= need
    ensures Tiles(cs, lo, hi) && Coalesced(cs)
  {
  }

  /** Allocation keeps tiling and coalescing and adds exactly the granted block. */
  lemma AllocateKeeps(bs: seq<Block>, i: nat, need: nat, lo: nat, hi: nat)
    requires Tiles(bs, lo, hi) && Coalesced(bs)
    requires i < |bs| && bs[i].Fits(need) && HEADER_SIZE <= need
    ensures Tiles(Allocate(bs, i, need), lo, hi) && Coalesced(Allocate(bs, i, need))
    ensures Allocated(Allocate(bs, i, need)) == Allocated(bs) + {Granted(bs, i, need)}
  {
    hide Allocate, Allocated;
    AllocatePositions(bs, i, need);
    AllocateAllocated(bs, i, need);
    if bs[i].Worth(need) { CutKeeps(bs, Allocate(bs, i, need), i, need, lo, hi); }
  }

  lemma AllocateKeepsAlignment(bs: seq<Block>, i: nat, need: nat)
    requires HeadersAligned(bs) && Coalesced(bs) && i < |bs| && bs[i].Fits(need) && need % HEADER_SIZE == 0
    ensures HeadersAligned(Allocate(bs, i, need))
  {
  }

  // ---------------------------------------------------------------- the operations as a whole

  /** The position of the block whose header is at addr; |bs| when there is none. */
  function IndexOf(bs: seq<Block>, addr: int): (i: nat)
    ensures i <= |bs|
    ensures i < |bs| ==> bs[i].addr == addr
    ensures forall j :: 0 <= j < i ==> bs[j].addr != addr
  {
    if |bs| == 0 || bs[0].addr == addr then 0 else 1 + IndexOf(bs[1..], addr)
  }
}
