/**
 free as its text reads, and exactly when it does what is documented.
 */
module HeapAsWrittenFree {
  import opened Arithmetic
  import opened Bytes
  import opened Blocks
  import opened Headers
  import opened HeapAllocator
  import opened HeapAsWritten
  import opened HeapAsWrittenAlloc

  /** fuse_blocks on neighbours keeps the higher header, points it at itself and clears the lower;
      a header x elsewhere is untouched. */
  lemma FuseMakesSelfLoop(m: Memory, a: nat, b: nat, limit: nat, x: nat)
    requires a != b && limit <= |m| && limit < U64
    requires var low, high := if a < b then a else b, if a < b then b else a;
      && high + HEADER_SIZE <= limit && HeaderAt(m, low).next == high && Apart(low, high)
      && x + HEADER_SIZE <= |m| && Apart(low, x) && Apart(high, x)
    ensures var low, high := if a < b then a else b, if a < b then b else a;
      var r := FuseBlocks(m, a, b, limit);
      && r.Done? && |r.value| == |m| && HeaderAt(r.value, low) == Header(NULL, NULL, 0, false)
      && HeaderAt(r.value, high)
         == Header(high, high, (HeaderAt(m, high).size + HeaderAt(m, low).size) % U64, HeaderAt(m, high).free)
      && HeaderAt(r.value, x) == HeaderAt(m, x)
  {
    hide HeaderAt, SetPrevious, SetNext, SetSize, SetFree, ClearHeader, HeaderWritten;
    var low, high := if a < b then a else b, if a < b then b else a;
    var h1 := HeaderAt(m, high).(size := (HeaderAt(m, high).size + HeaderAt(m, low).size) % U64);
    var m1 := SetSize(m, high, h1.size);
    WrittenReads(m, m1, high, h1, low);
    var h2 := h1.(next := high);
    var m2 := SetNext(m1, high, high);
    WrittenTwice(m, m1, m2, high, h1, h2);
    WrittenHere(m, m2, high, h2);
    var h3 := h2.(previous := high);
    var m3 := SetPrevious(m2, high, high);
    WrittenTwice(m, m2, m3, high, h2, h3);
    WrittenReads(m, m3, high, h3, x);
    var m4 := ClearHeader(m3, low);
    WrittenReads(m3, m4, low, Header(NULL, NULL, 0, false), x);
    WrittenReads(m3, m4, low, Header(NULL, NULL, 0, false), high);
  }

  /** fuse_blocks of a self-looped header with itself clears it. */
  lemma FuseWithSelf(m: Memory, a: nat, limit: nat, x: nat)
    requires a + HEADER_SIZE <= limit <= |m| && limit < U64 && x + HEADER_SIZE <= |m| && Apart(a, x)
    requires HeaderAt(m, a).next == a
    ensures var r := FuseBlocks(m, a, a, limit);
      && r.Done? && |r.value| == |m| && HeaderAt(r.value, a) == Header(NULL, NULL, 0, false)
      && HeaderAt(r.value, x) == HeaderAt(m, x)
  {
    hide HeaderAt, SetPrevious, SetNext, SetSize, SetFree, ClearHeader, HeaderWritten;
    var h1 := HeaderAt(m, a).(size := (HeaderAt(m, a).size + HeaderAt(m, a).size) % U64);
    var m1 := SetSize(m, a, h1.size);
    WrittenReads(m, m1, a, h1, x);
    var m2 := SetNext(m1, a, a);
    WrittenReads(m1, m2, a, h1, x);
    var m3 := SetPrevious(m2, a, a);
    WrittenReads(m2, m3, a, h1.(previous := a), x);
    WrittenReads(m3, ClearHeader(m3, a), a, Header(NULL, NULL, 0, false), x);
  }

  lemma {:induction false} FuseRightGrows(bs: seq<Block>, i: nat)
    requires i < |bs| && forall b :: b in bs ==> HEADER_SIZE <= b.size
    ensures FuseRight(bs, i)[i].addr == bs[i].addr && HEADER_SIZE <= FuseRight(bs, i)[i].size
    decreases |bs|
  {
    if FreeAfter(bs, i) { FuseRightGrows(Merge(bs, i), i); }
  }

  /** The merged block the documentation asks for: where it starts and how large it is at least. */
  lemma ReleaseHead(bs: seq<Block>, i: nat, lo: nat, hi: nat)
    requires Tiles(bs, lo, hi) && Coalesced(bs) && i < |bs|
    ensures var rs, k := Release(bs, i), if FreeBefore(bs, i) then i - 1 else i;
      && Tiles(rs, lo, hi) && k < |rs| && rs[k].addr == bs[k].addr && (k < i ==> bs[k].size < rs[k].size)
    ensures !FreeAfter(bs, i) && !FreeBefore(bs, i) ==> Release(bs, i) == bs[i := bs[i].(free := true)]
  {
    ReleaseKeeps(bs, i, lo, hi);
    var freed := bs[i := bs[i].(free := true)];
    var fs := FuseRight(freed, i);
    FuseRightPrefix(freed, i);
    FuseRightGrows(freed, i);
    if FreeBefore(bs, i) {
      assert fs[i - 1] == fs[..i][i - 1] == bs[i - 1];
      if 1 < i { assert fs[i - 2] == fs[..i][i - 2] == bs[i - 2] && !bs[i - 2].free; }
      assert FuseLeft(fs, i) == Merge(fs, i - 1);
    } else if 0 < i {
      assert fs[i - 1] == fs[..i][i - 1] == bs[i - 1];
    }
  }

  lemma MarkedFree(m: Memory, bs: seq<Block>, lo: nat, hi: nat, i: nat)
    requires Setting(m, bs, lo, hi) && i < |bs|
    ensures var m1, freed := SetFree(m, bs[i].addr, true), bs[i := bs[i].(free := true)];
      && |m1| == |m| && Tiles(freed, lo, hi) && Linked(m1, freed) && HeaderAt(m1, NULL) == HeaderAt(m, NULL)
      && HeaderAt(m1, bs[i].addr) == HeaderOf(freed, i)
      && KeepsPayloads(m, m1, bs, lo, hi)
  {
    hide HeaderAt, SetPrevious, SetNext, SetSize, SetFree, ClearHeader, HeaderWritten, KeepsPayloads;
    AtBlock(m, bs, lo, hi, i);
    TilesBelow(bs, lo, hi, i);
    var m1 := SetFree(m, bs[i].addr, true);
    WrittenReads(m, m1, bs[i].addr, HeaderOf(bs, i).(free := true), NULL);
    MarkLinks(m, m1, bs, i, true, lo, hi);
    MarkFreeKeeps(bs, i, lo, hi);
    assert bs[i] in bs;
    HeaderStoreKeeps(m, m1, bs, lo, hi, bs[i].addr, HeaderOf(bs, i).(free := true));
  }

  /** With a free block after it, the freed block's own header is cleared and the walk stops. */
  lemma WalkAfterFreeNeighbour(m: Memory, bs: seq<Block>, lo: nat, hi: nat, i: nat, turns: nat, x: nat)
    requires HEADER_SIZE <= lo && hi < U64 && hi <= |m| && Tiles(bs, lo, hi) && Linked(m, bs)
    requires i < |bs| && FreeAfter(bs, i) && !HeaderAt(m, NULL).free && 1 <= turns
    requires x + HEADER_SIZE <= |m| && Apart(bs[i].addr, x) && Apart(bs[i + 1].addr, x)
    ensures var r := FuseWalkthrough(m, bs[i].addr, hi, turns);
      && r.Done? && |r.value| == |m| && HeaderAt(r.value, x) == HeaderAt(m, x)
      && HeaderAt(r.value, bs[i].addr) == Header(NULL, NULL, 0, false)
  {
    hide HeaderAt, SetPrevious, SetNext, SetSize, SetFree, ClearHeader, HeaderWritten, FuseBlocks;
    var hdr, q := bs[i].addr, bs[i + 1].addr;
    AtBlock(m, bs, lo, hi, i);
    AtBlock(m, bs, lo, hi, i + 1);
    TilesSpread(bs, lo, hi);
    FuseMakesSelfLoop(m, hdr, q, hi, x);
    FuseMakesSelfLoop(m, hdr, q, hi, NULL);
    var m1 := FuseBlocks(m, hdr, q, hi).value;
    assert FuseForward(m, hdr, hi, turns) == FuseForward(m1, hdr, hi, turns - 1) == Done(m1);
    assert FuseBackward(m1, hdr, hi, turns) == Done(m1);
  }

  /** With a free block only before it, both headers end cleared. */
  lemma WalkAfterFreePredecessor(m: Memory, bs: seq<Block>, lo: nat, hi: nat, i: nat, turns: nat)
    requires HEADER_SIZE <= lo && hi < U64 && hi <= |m| && Tiles(bs, lo, hi) && Linked(m, bs)
    requires i < |bs| && bs[i].free && !FreeAfter(bs, i) && FreeBefore(bs, i)
    requires !HeaderAt(m, NULL).free && 2 <= turns
    ensures var r := FuseWalkthrough(m, bs[i].addr, hi, turns);
      && r.Done? && |r.value| == |m| && HeaderAt(r.value, bs[i - 1].addr) == Header(NULL, NULL, 0, false)
  {
    hide HeaderAt, SetPrevious, SetNext, SetSize, SetFree, ClearHeader, HeaderWritten, FuseBlocks;
    var hdr, p := bs[i].addr, bs[i - 1].addr;
    AtBlock(m, bs, lo, hi, i);
    AtBlock(m, bs, lo, hi, i - 1);
    if i + 1 < |bs| { AtBlock(m, bs, lo, hi, i + 1); }
    TilesSpread(bs, lo, hi);
    assert FuseForward(m, hdr, hi, turns) == Done(m);
    FuseMakesSelfLoop(m, hdr, p, hi, NULL);
    var m1 := FuseBlocks(m, hdr, p, hi).value;
    FuseWithSelf(m1, hdr, hi, NULL);
    FuseWithSelf(m1, hdr, hi, p);
    var m2 := FuseBlocks(m1, hdr, hdr, hi).value;
    assert FuseBackward(m2, hdr, hi, turns - 2) == Done(m2);
    assert FuseBackward(m1, hdr, hi, turns - 1) == Done(m2);
  }

  /** free reads the bytes at NULL when the block is the first or the last one. */
  predicate AtAnEnd(bs: seq<Block>, i: nat) { i == 0 || i + 1 == |bs| }

  lemma NoFreeNeighbourNoFuse(m: Memory, bs: seq<Block>, lo: nat, hi: nat, i: nat, turns: nat)
    requires HEADER_SIZE <= lo && hi < U64 && hi <= |m| && Tiles(bs, lo, hi) && Linked(m, bs)
    requires i < |bs| && !FreeAfter(bs, i) && !FreeBefore(bs, i) && (AtAnEnd(bs, i) ==> Quiet(m))
    ensures FuseWalkthrough(m, bs[i].addr, hi, turns) == Done(m)
  {
    hide HeaderAt, SetPrevious, SetNext, SetSize, SetFree, ClearHeader, HeaderWritten;
    AtBlock(m, bs, lo, hi, i);
    if i + 1 < |bs| { AtBlock(m, bs, lo, hi, i + 1); }
    if 0 < i { AtBlock(m, bs, lo, hi, i - 1); }
  }

  /** A block between blocks in use is freed as documented, whatever the bytes at NULL are; at either end of
      the heap they must not look like a free header. */
  lemma FreeKeeps(m: Memory, bs: seq<Block>, lo: nat, hi: nat, i: nat, turns: nat)
    requires Setting(m, bs, lo, hi) && i < |bs| && !bs[i].free && (AtAnEnd(bs, i) ==> Quiet(m))
    requires !FreeAfter(bs, i) && !FreeBefore(bs, i)
    ensures var r := DeleteBlock(m, bs[i].addr, hi, turns);
      && r.Done? && Setting(r.value, Release(bs, i), lo, hi) && KeepsPayloads(m, r.value, bs, lo, hi)
      && HeaderAt(r.value, NULL) == HeaderAt(m, NULL)
  {
    hide HeaderAt, SetPrevious, SetNext, SetSize, SetFree, ClearHeader, HeaderWritten, FuseWalkthrough, Release,
      Coalesced, KeepsPayloads;
    AtBlock(m, bs, lo, hi, i);
    var freed := bs[i := bs[i].(free := true)];
    MarkedFree(m, bs, lo, hi, i);
    ReleaseHead(bs, i, lo, hi);
    ReleaseIsCoalesce(bs, i);
    NoFreeNeighbourNoFuse(SetFree(m, bs[i].addr, true), freed, lo, hi, i, turns);
  }

  /** Unless NULL looks like a free header, the list comes out as documented exactly when neither neighbour
      is free; the frame then holds too. */
  lemma FreeListExact(m: Memory, bs: seq<Block>, lo: nat, hi: nat, i: nat, turns: nat)
    requires Setting(m, bs, lo, hi) && Quiet(m) && i < |bs| && !bs[i].free && 2 <= turns
    ensures var r := DeleteBlock(m, bs[i].addr, hi, turns);
      && r.Done?
      && (Linked(r.value, Release(bs, i)) <==> !FreeAfter(bs, i) && !FreeBefore(bs, i))
      && (!FreeAfter(bs, i) && !FreeBefore(bs, i) ==>
            Setting(r.value, Release(bs, i), lo, hi) && KeepsPayloads(m, r.value, bs, lo, hi) && Quiet(r.value))
  {
    hide HeaderAt, SetPrevious, SetNext, SetSize, SetFree, ClearHeader, HeaderWritten, FuseWalkthrough, Release,
      Coalesced, KeepsPayloads;
    AtBlock(m, bs, lo, hi, i);
    var hdr, freed := bs[i].addr, bs[i := bs[i].(free := true)];
    var m1 := SetFree(m, hdr, true);
    MarkedFree(m, bs, lo, hi, i);
    ReleaseHead(bs, i, lo, hi);
    ReleaseIsCoalesce(bs, i);
    var rs, k := Release(bs, i), if FreeBefore(bs, i) then i - 1 else i;
    if FreeAfter(bs, i) {
      assert FreeAfter(freed, i);
      BlocksApart(bs, lo, hi, i, i + 1);
      if k < i { BlocksApart(bs, lo, hi, k, i); BlocksApart(bs, lo, hi, k, i + 1); }
      AtBlock(m1, freed, lo, hi, k);
      WalkAfterFreeNeighbour(m1, freed, lo, hi, i, turns, if k < i then bs[k].addr else NULL);
      var m2 := FuseWalkthrough(m1, hdr, hi, turns).value;
      if Linked(m2, rs) { AtBlock(m2, rs, lo, hi, k); }
    } else if FreeBefore(bs, i) {
      assert FreeBefore(freed, i) && !FreeAfter(freed, i);
      WalkAfterFreePredecessor(m1, freed, lo, hi, i, turns);
      var m2 := FuseWalkthrough(m1, hdr, hi, turns).value;
      if Linked(m2, rs) { AtBlock(m2, rs, lo, hi, k); }
    } else {
      FreeKeeps(m, bs, lo, hi, i, turns);
    }
  }

  /** Whatever malloc has just split off cannot be given back while its remainder is free. */
  lemma SplitThenFreeCorrupts(m: Memory, bs: seq<Block>, lo: nat, hi: nat, request: nat, turns: nat)
    requires Setting(m, bs, lo, hi) && Quiet(m) && request < ROUNDING_LIMIT && |bs| <= turns && 2 <= turns
    requires var i := FirstFit(bs, AlignedSize(request)); i < |bs| && bs[i].Worth(AlignedSize(request))
    ensures var i, r, spec := FirstFit(bs, AlignedSize(request)), Malloc(m, lo, hi, request, turns),
                              MallocSpec(bs, request);
      && AlmostAsDocumented(m, r, bs, spec, lo, hi)
      && var f := DeleteBlock(r.value.0, bs[i].addr, hi, turns); f.Done? && !Linked(f.value, Release(spec.0, i))
  {
    hide HeaderAt, SetPrevious, SetNext, SetSize, SetFree, ClearHeader, HeaderWritten, Malloc, Release, Linked,
      Tiles, DeleteBlock, FuseWalkthrough, Allocate, KeepsPayloads, KeepsAbove;
    var need := AlignedSize(request);
    var i, r, cs := FirstFit(bs, need), Malloc(m, lo, hi, request, turns), MallocSpec(bs, request).0;
    MallocKeeps(m, bs, lo, hi, request, turns);
    AllocatePositions(bs, i, need);
    assert FreeAfter(cs, i);
    FreeListExact(r.value.0, cs, lo, hi, i, turns);
  }

  // ---------------------------------------------------------------- bytes at NULL that look like a free header

  /** z is a link whose header, if the walk reads it, stops the walk: past the heap, NULL itself, or a
      header that does not look free and overlaps neither hdr nor NULL. */
  predicate Stops(m: Memory, hdr: nat, z: nat, hi: nat) {
    hi <= z || z == NULL
    || (z + HEADER_SIZE <= |m| && Apart(z, NULL) && Apart(z, hdr) && !HeaderAt(m, z).free)
  }

  /** fuse_blocks of a header with the bytes at NULL: the header takes over their link z, and they are
      cleared.  A header x that z does not reach into keeps its own link and flag. */
  lemma FuseWithNull(m: Memory, hdr: nat, hi: nat, z: nat, x: nat)
    requires HEADER_SIZE <= hdr && hdr + HEADER_SIZE <= hi <= |m| && hi < U64
    requires z == HeaderAt(m, NULL).next < U64 && Stops(m, hdr, z, hi)
    ensures var r := FuseBlocks(m, hdr, NULL, hi);
      && (r.Done? <==> z + HEADER_SIZE <= |m|) && (r.Done? ==>
        && |r.value| == |m| && HeaderAt(r.value, NULL) == Header(NULL, NULL, 0, false)
        && HeaderAt(r.value, hdr).previous == HeaderAt(m, hdr).previous && HeaderAt(r.value, hdr).next == z
        && HeaderAt(r.value, hdr).free == HeaderAt(m, hdr).free
        && (x + HEADER_SIZE <= |m| && Apart(hdr, x) && Apart(NULL, x) && (z == x || Apart(z, x)) ==>
              HeaderAt(r.value, x).next == HeaderAt(m, x).next && HeaderAt(r.value, x).free == HeaderAt(m, x).free))
  {
    hide HeaderAt, SetPrevious, SetNext, SetSize, SetFree, ClearHeader, HeaderWritten;
    var low, h := HeaderAt(m, NULL), HeaderAt(m, hdr);
    var h1 := h.(size := (h.size + low.size) % U64);
    var h2 := h1.(next := z);
    var m1 := SetSize(m, hdr, h1.size);
    WrittenReads(m, m1, hdr, h1, NULL);
    SmallMod(z, U64);
    SmallMod(hdr, U64);
    var m2 := SetNext(m1, hdr, z);
    WrittenTwice(m, m1, m2, hdr, h1, h2);
    WrittenReads(m, m2, hdr, h2, NULL);
    if z + HEADER_SIZE <= |m| {
      var back := HeaderAt(m2, z).(previous := hdr);
      var m3 := if HdrAddrIsValid(HeaderAt(m2, z).next, hi) then SetPrevious(m2, z, hdr) else m2;
      if m3 != m2 { WrittenHere(m2, m3, z, back); }
      var zero, m4 := Header(NULL, NULL, 0, false), ClearHeader(m3, NULL);
      if m3 != m2 { WrittenReads(m2, m3, z, back, hdr); }
      WrittenReads(m3, m4, NULL, zero, hdr);
      assert FuseBlocks(m, hdr, NULL, hi) == Done(m4);
      if x + HEADER_SIZE <= |m| && Apart(hdr, x) && Apart(NULL, x) && (z == x || Apart(z, x)) {
        WrittenReads(m, m2, hdr, h2, x);
        if m3 != m2 && z != x { WrittenReads(m2, m3, z, back, x); }
        WrittenReads(m3, m4, NULL, zero, x);
      }
    }
  }

  /** The link found at NULL stops the walk and reaches into no header of the list in part. */
  ghost predicate WalkEnds(m: Memory, bs: seq<Block>, i: nat, hi: nat)
    requires i < |bs| && HEADER_SIZE <= |m|
  {
    var z := HeaderAt(m, NULL).next;
    Stops(m, bs[i].addr, z, hi) && forall b :: b in bs ==> Apart(z, b.addr) || z == b.addr
  }

  /** free reads the bytes at NULL: at an end of the list, or once it has fused a free neighbour. */
  predicate ReadsNull(bs: seq<Block>, i: nat) { AtAnEnd(bs, i) || FreeAfter(bs, i) || FreeBefore(bs, i) }

  /** The walk from hdr is about to meet a free-looking header at NULL, and then stops. */
  ghost predicate AtNull(m: Memory, hdr: nat, hi: nat, z: nat) {
    && HEADER_SIZE <= hdr && hdr + HEADER_SIZE <= hi <= |m| && hi < U64
    && HeaderAt(m, NULL).free && z == HeaderAt(m, NULL).next < U64 && Stops(m, hdr, z, hi)
  }

  /** The walk forward from a header that links to NULL. */
  lemma ForwardIntoNull(m: Memory, hdr: nat, hi: nat, z: nat, turns: nat)
    requires AtNull(m, hdr, hi, z) && HeaderAt(m, hdr).next == NULL && 1 <= turns
    ensures FuseForward(m, hdr, hi, turns) == FuseBlocks(m, hdr, NULL, hi)
  {
    hide HeaderAt, FuseBlocks;
    FuseWithNull(m, hdr, hi, z, z);
    var r := FuseBlocks(m, hdr, NULL, hi);
    if r.Done? {
      assert FuseForward(r.value, hdr, hi, turns - 1) == r;
    }
  }

  /** The walk backward from a header that links to NULL. */
  lemma BackwardIntoNull(m: Memory, hdr: nat, hi: nat, z: nat, turns: nat)
    requires AtNull(m, hdr, hi, z) && HeaderAt(m, hdr).previous == NULL && 1 <= turns
    ensures FuseBackward(m, hdr, hi, turns) == FuseBlocks(m, hdr, NULL, hi)
  {
    hide HeaderAt, FuseBlocks;
    FuseWithNull(m, hdr, hi, z, z);
    var r := FuseBlocks(m, hdr, NULL, hi);
    if r.Done? {
      assert FuseBackward(r.value, hdr, hi, turns - 1) == r;
    }
  }

  /** A marked list whose block i is walked from, and a free-looking header at NULL. */
  ghost predicate Meeting(m: Memory, bs: seq<Block>, lo: nat, hi: nat, i: nat) {
    && HEADER_SIZE <= lo && hi < U64 && hi <= |m| && Tiles(bs, lo, hi) && Linked(m, bs)
    && i < |bs| && bs[i].free && HeaderAt(m, NULL).free && WalkEnds(m, bs, i, hi)
  }

  lemma MeetingReads(m: Memory, bs: seq<Block>, lo: nat, hi: nat, i: nat)
    requires Meeting(m, bs, lo, hi, i)
    ensures var z := HeaderAt(m, NULL).next;
      && AtNull(m, bs[i].addr, hi, z) && HeaderAt(m, bs[i].addr) == HeaderOf(bs, i) && Apart(z, bs[i].addr)
      && (z < hi && z != NULL ==> z + HEADER_SIZE <= |m| && Apart(z, NULL) && !HeaderAt(m, z).free)
      && (forall k :: 0 <= k < |bs| && bs[k].free ==> Apart(z, bs[k].addr))
  {
    hide HeaderAt;
    AtBlock(m, bs, lo, hi, i);
    LinkBound(m, NULL);
    TilesSpread(bs, lo, hi);
    var z := HeaderAt(m, NULL).next;
    forall k | 0 <= k < |bs| && bs[k].free ensures Apart(z, bs[k].addr) {
      AtBlock(m, bs, lo, hi, k);
      assert bs[k] in bs;
    }
  }

  /** What the walk reads of the neighbours. */
  lemma MeetingNeighbours(m: Memory, bs: seq<Block>, lo: nat, hi: nat, i: nat)
    requires Meeting(m, bs, lo, hi, i)
    ensures bs[i].addr + HEADER_SIZE <= hi && lo <= bs[i].addr
    ensures i + 1 < |bs| ==>
      var q := bs[i + 1].addr;
      && bs[i].addr < q && q + HEADER_SIZE <= hi && Apart(bs[i].addr, q) && Apart(q, NULL)
      && HeaderAt(m, q) == HeaderOf(bs, i + 1)
    ensures 0 < i ==>
      var p := bs[i - 1].addr;
      && lo <= p < bs[i].addr && p + HEADER_SIZE <= hi && Apart(bs[i].addr, p) && Apart(p, NULL)
      && HeaderAt(m, p) == HeaderOf(bs, i - 1)
  {
    hide HeaderAt;
    TilesSpread(bs, lo, hi);
    if i + 1 < |bs| { AtBlock(m, bs, lo, hi, i + 1); }
    if 0 < i { AtBlock(m, bs, lo, hi, i - 1); }
  }

  /** After a free right neighbour. */
  lemma WalkAfterIntoNull(m: Memory, bs: seq<Block>, lo: nat, hi: nat, i: nat, turns: nat)
    requires Meeting(m, bs, lo, hi, i) && FreeAfter(bs, i) && 3 <= turns
    ensures var z, r := HeaderAt(m, NULL).next, FuseWalkthrough(m, bs[i].addr, hi, turns);
      (r.Done? <==> z + HEADER_SIZE <= |m|) && (r.Done? ==> |r.value| == |m| && !HeaderAt(r.value, NULL).free)
  {
    hide HeaderAt, FuseBlocks, Tiles;
    var hdr, q, z := bs[i].addr, bs[i + 1].addr, HeaderAt(m, NULL).next;
    MeetingReads(m, bs, lo, hi, i);
    MeetingNeighbours(m, bs, lo, hi, i);
    FuseMakesSelfLoop(m, hdr, q, hi, NULL);
    if z + HEADER_SIZE <= |m| { FuseMakesSelfLoop(m, hdr, q, hi, z); }
    var m1 := FuseBlocks(m, hdr, q, hi).value;
    assert AtNull(m1, hdr, hi, z);
    ForwardIntoNull(m1, hdr, hi, z, turns - 1);
    FuseWithNull(m1, hdr, hi, z, hdr);
    var r := FuseBlocks(m1, hdr, NULL, hi);
    assert FuseForward(m, hdr, hi, turns) == r;
    if r.Done? { assert FuseBackward(r.value, hdr, hi, turns) == r; }
  }

  /** From the last block. */
  lemma WalkLastIntoNull(m: Memory, bs: seq<Block>, lo: nat, hi: nat, i: nat, turns: nat)
    requires Meeting(m, bs, lo, hi, i) && i + 1 == |bs| && 3 <= turns
    ensures var z, r := HeaderAt(m, NULL).next, FuseWalkthrough(m, bs[i].addr, hi, turns);
      && (r.Done? <==> z + HEADER_SIZE <= |m|) && (r.Done? ==> |r.value| == |m| && !HeaderAt(r.value, NULL).free)
      && (r.Done? && !FreeBefore(bs, i) ==> HeaderAt(r.value, bs[i].addr).next == z)
  {
    hide HeaderAt, FuseBlocks, Tiles;
    var hdr, z := bs[i].addr, HeaderAt(m, NULL).next;
    MeetingReads(m, bs, lo, hi, i);
    MeetingNeighbours(m, bs, lo, hi, i);
    var p := if 0 < i then bs[i - 1].addr else hdr;
    assert 0 < i ==> bs[i - 1] in bs;
    ForwardIntoNull(m, hdr, hi, z, turns);
    FuseWithNull(m, hdr, hi, z, p);
    var r := FuseBlocks(m, hdr, NULL, hi);
    if r.Done? {
      if FreeBefore(bs, i) {
        FuseMakesSelfLoop(r.value, hdr, p, hi, NULL);
        var m2 := FuseBlocks(r.value, hdr, p, hi).value;
        FuseWithSelf(m2, hdr, hi, NULL);
        var m3 := FuseBlocks(m2, hdr, hdr, hi).value;
        assert FuseBackward(m3, hdr, hi, turns - 2) == Done(m3);
        assert FuseBackward(m2, hdr, hi, turns - 1) == Done(m3);
        assert FuseBackward(r.value, hdr, hi, turns) == Done(m3);
      } else {
        assert FuseBackward(r.value, hdr, hi, turns) == r;
      }
    }
  }

  /** From the first block, or after a free left neighbour. */
  lemma WalkBackIntoNull(m: Memory, bs: seq<Block>, lo: nat, hi: nat, i: nat, turns: nat)
    requires Meeting(m, bs, lo, hi, i) && i + 1 < |bs| && !FreeAfter(bs, i) && 3 <= turns
    requires i == 0 || FreeBefore(bs, i)
    ensures var z, r := HeaderAt(m, NULL).next, FuseWalkthrough(m, bs[i].addr, hi, turns);
      && (r.Done? <==> z + HEADER_SIZE <= |m|) && (r.Done? ==> |r.value| == |m| && !HeaderAt(r.value, NULL).free)
      && (r.Done? && i == 0 ==> HeaderAt(r.value, bs[i].addr).next == z)
  {
    hide HeaderAt, FuseBlocks, Tiles;
    var hdr, z := bs[i].addr, HeaderAt(m, NULL).next;
    MeetingReads(m, bs, lo, hi, i);
    MeetingNeighbours(m, bs, lo, hi, i);
    assert FuseForward(m, hdr, hi, turns) == Done(m);
    if i == 0 {
      BackwardIntoNull(m, hdr, hi, z, turns);
      FuseWithNull(m, hdr, hi, z, hdr);
    } else {
      var p := bs[i - 1].addr;
      FuseMakesSelfLoop(m, hdr, p, hi, NULL);
      if z + HEADER_SIZE <= |m| { FuseMakesSelfLoop(m, hdr, p, hi, z); }
      var m1 := FuseBlocks(m, hdr, p, hi).value;
      FuseWithSelf(m1, hdr, hi, NULL);
      if z + HEADER_SIZE <= |m| { FuseWithSelf(m1, hdr, hi, z); }
      var m2 := FuseBlocks(m1, hdr, hdr, hi).value;
      assert AtNull(m2, hdr, hi, z);
      BackwardIntoNull(m2, hdr, hi, z, turns - 2);
      FuseWithNull(m2, hdr, hi, z, hdr);
      assert FuseBackward(m1, hdr, hi, turns - 1) == FuseBackward(m2, hdr, hi, turns - 2);
      assert FuseBackward(m, hdr, hi, turns) == FuseBackward(m1, hdr, hi, turns - 1);
    }
  }

  lemma FirstAddress(bs: seq<Block>, lo: nat, hi: nat)
    requires Tiles(bs, lo, hi)
    ensures 0 < |bs| && bs[0].addr == lo <= hi
  {
    TilesAbove(bs, lo, hi, 0);
  }

  lemma MarkedMeeting(m: Memory, bs: seq<Block>, lo: nat, hi: nat, i: nat)
    requires Setting(m, bs, lo, hi) && i < |bs| && HeaderAt(m, NULL).free && WalkEnds(m, bs, i, hi)
    ensures bs[i].addr + HEADER_SIZE <= |m|
    ensures var m1, freed := SetFree(m, bs[i].addr, true), bs[i := bs[i].(free := true)];
      && Meeting(m1, freed, lo, hi, i) && HeaderAt(m1, NULL) == HeaderAt(m, NULL) && |m1| == |m|
      && KeepsPayloads(m, m1, bs, lo, hi)
  {
    hide HeaderAt, SetPrevious, SetNext, SetSize, SetFree, ClearHeader, HeaderWritten, KeepsPayloads, Tiles, Linked;
    AtBlock(m, bs, lo, hi, i);
    MarkedFree(m, bs, lo, hi, i);
    var m1, freed, z := SetFree(m, bs[i].addr, true), bs[i := bs[i].(free := true)], HeaderAt(m, NULL).next;
    if z < hi && z != NULL { WrittenReads(m, m1, bs[i].addr, HeaderAt(m, bs[i].addr).(free := true), z); }
    forall b | b in freed ensures Apart(z, b.addr) || z == b.addr {
      var k :| 0 <= k < |freed| && freed[k] == b;
      assert bs[k] in bs && bs[k].addr == b.addr;
    }
  }

  lemma LinkedAt(m: Memory, bs: seq<Block>, k: nat)
    requires Linked(m, bs) && k < |bs|
    ensures bs[k].addr + HEADER_SIZE <= |m| && HeaderAt(m, bs[k].addr) == HeaderOf(bs, k)
  {
  }

  /** Bytes at NULL that look like a free header are fused with the freed block wherever free reads them, and
      cleared; at an end of the list the block takes over their link. */
  lemma FreeSwallowsNull(m: Memory, bs: seq<Block>, lo: nat, hi: nat, i: nat, turns: nat)
    requires Setting(m, bs, lo, hi) && i < |bs| && !bs[i].free && ReadsNull(bs, i) && 3 <= turns
    requires HeaderAt(m, NULL).free && WalkEnds(m, bs, i, hi)
    ensures var z, r := HeaderAt(m, NULL).next, DeleteBlock(m, bs[i].addr, hi, turns);
      && (r.Done? <==> z + HEADER_SIZE <= |m|) && (r.Done? ==> !KeepsPayloads(m, r.value, bs, lo, hi))
      && (r.Done? && !FreeAfter(bs, i) && !FreeBefore(bs, i) && z != HeaderOf(bs, i).next ==>
            !Linked(r.value, Release(bs, i)))
  {
    FirstAddress(bs, lo, hi);
    hide HeaderAt, SetPrevious, SetNext, SetSize, SetFree, ClearHeader, HeaderWritten, FuseWalkthrough, Meeting,
      WalkEnds, KeepsPayloads, KeepsAbove, Tiles, Linked, Release, Coalesced;
    var hdr, freed, z := bs[i].addr, bs[i := bs[i].(free := true)], HeaderAt(m, NULL).next;
    MarkedMeeting(m, bs, lo, hi, i);
    var m1 := SetFree(m, hdr, true);
    ReleaseHead(bs, i, lo, hi);
    if FreeAfter(bs, i) {
      WalkAfterIntoNull(m1, freed, lo, hi, i, turns);
    } else if i + 1 == |bs| {
      WalkLastIntoNull(m1, freed, lo, hi, i, turns);
    } else {
      WalkBackIntoNull(m1, freed, lo, hi, i, turns);
    }
    var r := FuseWalkthrough(m1, hdr, hi, turns);
    if r.Done? {
      KeepsNullHeader(m, r.value, bs, lo, hi);
      if Linked(r.value, Release(bs, i)) && !FreeAfter(bs, i) && !FreeBefore(bs, i) {
        LinkedAt(r.value, freed, i);
      }
    }
  }

  /** The backward walk stops only in front of a header that is not valid or not free. */
  lemma {:induction false} BackwardStops(m: Memory, hdr: nat, hi: nat, turns: nat)
    requires FuseBackward(m, hdr, hi, turns).Done?
    ensures var r := FuseBackward(m, hdr, hi, turns).value;
      && hdr + HEADER_SIZE <= |r|
      && var p := HeaderAt(r, hdr).previous; p < hi ==> p + HEADER_SIZE <= |r| && !HeaderAt(r, p).free
    decreases turns
  {
    hide HeaderAt, FuseBlocks;
    var p := HeaderAt(m, hdr).previous;
    if p < hi && HeaderAt(m, p).free {
      BackwardStops(FuseBlocks(m, hdr, p, hi).value, hdr, hi, turns - 1);
    }
  }

  /** The first block is never freed as documented while the bytes at NULL look like a free header, whatever
      they link to: the walk cannot stop in front of them. */
  lemma FirstNeverFreed(m: Memory, bs: seq<Block>, lo: nat, hi: nat, turns: nat)
    requires Setting(m, bs, lo, hi) && !bs[0].free && HeaderAt(m, NULL).free
    ensures var r := DeleteBlock(m, bs[0].addr, hi, turns);
      !(r.Done? && Linked(r.value, Release(bs, 0)) && KeepsPayloads(m, r.value, bs, lo, hi))
  {
    FirstAddress(bs, lo, hi);
    hide HeaderAt, SetFree, FuseForward, FuseBackward, KeepsPayloads, KeepsAbove, Tiles, Linked, Release, Coalesced;
    var r := DeleteBlock(m, bs[0].addr, hi, turns);
    ReleaseHead(bs, 0, lo, hi);
    if r.Done? && Linked(r.value, Release(bs, 0)) {
      var m1 := SetFree(m, bs[0].addr, true);
      BackwardStops(FuseForward(m1, bs[0].addr, hi, turns).value, bs[0].addr, hi, turns);
      LinkedAt(r.value, Release(bs, 0), 0);
      KeepsNullHeader(m, r.value, bs, lo, hi);
    }
  }

  /** free meets its documentation exactly when neither neighbour is free and, at an end of the list, the bytes
      at NULL do not look like a free header.  The one case left out is a free-looking header at NULL with a
      link from which the walk would go on, where free reads it and the block is not the first. */
  lemma FreeExact(m: Memory, bs: seq<Block>, lo: nat, hi: nat, i: nat, turns: nat)
    requires Setting(m, bs, lo, hi) && i < |bs| && !bs[i].free && 3 <= turns
    requires Quiet(m) || i == 0 || !ReadsNull(bs, i) || WalkEnds(m, bs, i, hi)
    ensures var r := DeleteBlock(m, bs[i].addr, hi, turns);
      (r.Done? && Linked(r.value, Release(bs, i)) && KeepsPayloads(m, r.value, bs, lo, hi))
      <==> !FreeAfter(bs, i) && !FreeBefore(bs, i) && (AtAnEnd(bs, i) ==> Quiet(m))
  {
    FirstAddress(bs, lo, hi);
    hide HeaderAt, DeleteBlock, KeepsPayloads, Linked, Release, WalkEnds, Coalesced, Tiles;
    if Quiet(m) {
      FreeListExact(m, bs, lo, hi, i, turns);
    } else if !ReadsNull(bs, i) {
      FreeKeeps(m, bs, lo, hi, i, turns);
    } else if i == 0 {
      FirstNeverFreed(m, bs, lo, hi, turns);
    } else {
      FreeSwallowsNull(m, bs, lo, hi, i, turns);
    }
  }
}
