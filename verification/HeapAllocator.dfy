/**
 The heap allocator working in place on flat memory, with the algorithm its comments describe.
 Where the text of the allocator departs from that, the line here says "repair".
 */
module HeapAllocator {
  import opened Arithmetic
  import opened Bytes
  import opened Blocks
  import opened Headers

  // ---------------------------------------------------------------- memory image of the blocks

  function HeaderOf(bs: seq<Block>, i: nat): Header
    requires i < |bs|
  {
    Header(if i == 0 then NULL else bs[i - 1].addr, if i + 1 == |bs| then NULL else bs[i + 1].addr,
           bs[i].size, bs[i].free)
  }

  /** The doubly linked list in memory is exactly the block sequence. */
  ghost predicate Linked(m: Memory, bs: seq<Block>) {
    && (forall i :: 0 <= i < |bs| ==> bs[i].addr + HEADER_SIZE <= |m|)
    && (forall i {:trigger HeaderOf(bs, i)} :: 0 <= i < |bs| ==> HeaderAt(m, bs[i].addr) == HeaderOf(bs, i))
  }

  ghost function HeaderAddrs(bs: seq<Block>): set<nat> {
    set b | b in bs :: b.addr
  }

  /** Only bytes of headers at the addresses hs differ. */
  ghost predicate SameOffHeaders(m: Memory, m': Memory, hs: set<nat>) {
    |m| == |m'| && forall p :: 0 <= p < |m| && (forall a :: a in hs ==> !(a <= p < a + HEADER_SIZE)) ==> m'[p] == m[p]
  }

  /** Byte p belongs to the payload of a block in use. */
  ghost predicate InUse(bs: seq<Block>, p: nat) {
    exists b :: b in bs && !b.free && b.Payload() <= p < b.End()
  }

  /** No byte outside the heap and no byte of a payload in use differs. */
  ghost predicate KeepsPayloads(m: Memory, m': Memory, bs: seq<Block>, lo: nat, hi: nat) {
    |m| == |m'| && forall p :: 0 <= p < |m| && (p < lo || hi <= p || InUse(bs, p)) ==> m'[p] == m[p]
  }

  // ---------------------------------------------------------------- list surgery, header by header

  lemma BlocksApart(bs: seq<Block>, lo: nat, hi: nat, i: nat, j: nat)
    requires Tiles(bs, lo, hi) && i < |bs| && j < |bs| && i != j
    ensures Apart(bs[i].addr, bs[j].addr)
  {
    if i < j { TilesInOrder(bs, lo, hi, i, j); } else { TilesInOrder(bs, lo, hi, j, i); }
  }

  /** What a walk sees at block k. */
  lemma AtBlock(m: Memory, bs: seq<Block>, lo: nat, hi: nat, k: nat)
    requires Tiles(bs, lo, hi) && Linked(m, bs) && 0 < lo && k < |bs|
    ensures bs[k].addr + HEADER_SIZE <= |m| && HeaderAt(m, bs[k].addr) == HeaderOf(bs, k)
    ensures k + 1 < |bs| ==> lo < bs[k + 1].addr < hi
    ensures 0 < k ==> lo <= bs[k - 1].addr < hi
  {
    hide HeaderAt;
    TilesSpread(bs, lo, hi);
  }

  /** What fuse_blocks reads, before and after it has rewritten the first header. */
  lemma FuseReads(m: Memory, bs: seq<Block>, i: nat, lo: nat, hi: nat)
    requires Tiles(bs, lo, hi) && Linked(m, bs) && 0 < lo && i + 1 < |bs| && hi < U64
    ensures bs[i].addr + HEADER_SIZE <= |m| && bs[i + 1].addr + HEADER_SIZE <= |m|
    ensures Apart(bs[i].addr, bs[i + 1].addr)
    ensures HeaderAt(m, bs[i].addr) == HeaderOf(bs, i) && HeaderAt(m, bs[i + 1].addr) == HeaderOf(bs, i + 1)
    ensures bs[i].size + bs[i + 1].size < U64
    ensures i + 2 < |bs| ==> 
      && lo < bs[i + 2].addr < hi && bs[i + 2].addr + HEADER_SIZE <= |m|
      && HeaderAt(m, bs[i + 2].addr) == HeaderOf(bs, i + 2) && Apart(bs[i].addr, bs[i + 2].addr)
  {
    hide HeaderAt;
    TilesSpread(bs, lo, hi);
    assert bs[i].End() == bs[i + 1].addr;
  }

  /** The header a block has after absorbing its right neighbour. */
  function FusedHeader(bs: seq<Block>, i: nat): Header
    requires i + 1 < |bs|
  {
    Header(HeaderOf(bs, i).previous, HeaderOf(bs, i + 1).next, bs[i].size + bs[i + 1].size, bs[i].free)
  }

  /** The stores of fuse_blocks: the first header, the back link of the block after, the absorbed header. */
  ghost predicate FuseStores(m0: Memory, m1: Memory, m2: Memory, m3: Memory, bs: seq<Block>, i: nat) {
    && i + 1 < |bs|
    && HeaderWritten(m0, m1, bs[i].addr, FusedHeader(bs, i))
    && (if i + 2 < |bs| then HeaderWritten(m1, m2, bs[i + 2].addr, HeaderOf(bs, i + 2).(previous := bs[i].addr))
        else m2 == m1)
    && HeaderWritten(m2, m3, bs[i + 1].addr, Header(NULL, NULL, 0, false))
  }

  /** Where the stores leave the header of block j. */
  lemma FuseAt(m0: Memory, m1: Memory, m2: Memory, m3: Memory,
               bs: seq<Block>, i: nat, lo: nat, hi: nat, j: nat)
    requires Tiles(bs, lo, hi) && Linked(m0, bs) && FuseStores(m0, m1, m2, m3, bs, i) && j < |bs|
    ensures bs[j].addr + HEADER_SIZE <= |m3|
    ensures HeaderAt(m3, bs[j].addr) ==
      if j == i then FusedHeader(bs, i)
      else if j == i + 1 then Header(NULL, NULL, 0, false)
      else if j == i + 2 then HeaderOf(bs, j).(previous := bs[i].addr)
      else HeaderOf(bs, j)
  {
    hide HeaderAt, Tiles;
    if j != i { BlocksApart(bs, lo, hi, i, j); }
    if j != i + 1 { BlocksApart(bs, lo, hi, i + 1, j); }
    if j != i + 2 && i + 2 < |bs| { BlocksApart(bs, lo, hi, i + 2, j); }
  }

  lemma FuseLinks(m0: Memory, m1: Memory, m2: Memory, m3: Memory,
                  bs: seq<Block>, i: nat, lo: nat, hi: nat)
    requires Tiles(bs, lo, hi) && Linked(m0, bs) && FuseStores(m0, m1, m2, m3, bs, i)
    ensures Linked(m3, Merge(bs, i))
    ensures bs[i + 1].addr + HEADER_SIZE <= |m3| && HeaderAt(m3, bs[i + 1].addr) == Header(NULL, NULL, 0, false)
  {
    hide HeaderAt, Tiles, HeaderWritten;
    FuseAt(m0, m1, m2, m3, bs, i, lo, hi, i + 1);
    var ms := Merge(bs, i);
    forall j | 0 <= j < |ms|
      ensures ms[j].addr + HEADER_SIZE <= |m3| && HeaderAt(m3, ms[j].addr) == HeaderOf(ms, j)
    {
      FuseAt(m0, m1, m2, m3, bs, i, lo, hi, if j <= i then j else j + 1);
    }
  }

  lemma FuseFrame(m0: Memory, m1: Memory, m2: Memory, m3: Memory, bs: seq<Block>, i: nat)
    requires FuseStores(m0, m1, m2, m3, bs, i)
    ensures SameOffHeaders(m0, m3, HeaderAddrs(bs))
  {
    hide HeaderAt, HeaderOf;
    assert bs[i].addr in HeaderAddrs(bs) && bs[i + 1].addr in HeaderAddrs(bs);
    assert i + 2 < |bs| ==> bs[i + 2].addr in HeaderAddrs(bs);
  }

  // ---------------------------------------------------------------- splitting

  /** The block after the new one, once a free neighbour has been absorbed. */
  function Following(bs: seq<Block>, i: nat): nat {
    if i + 1 < |bs| && bs[i + 1].free then i + 2 else i + 1
  }

  function NewHeader(bs: seq<Block>, i: nat, need: nat): Header
    requires i < |bs| && need <= bs[i].size
  {
    var t := Following(bs, i);
    Header(bs[i].addr, if t < |bs| then bs[t].addr else NULL,
           bs[i].size - need + (if t == i + 2 then bs[i + 1].size else 0), true)
  }

  /** The stores of insert_new_block: new header, absorbed header, back link, header of the cut block.
      The absorbed header may be left as it is.  Without a following block there is no back link, or
      it goes through the NULL pointer. */
  ghost predicate InsertStores(m0: Memory, m1: Memory, m2: Memory, m3: Memory, m4: Memory,
                               bs: seq<Block>, i: nat, need: nat) {
    && i < |bs| && HEADER_SIZE <= need && need + HEADER_SIZE <= bs[i].size
    && var t, cut := Following(bs, i), bs[i].addr + need;
    && HeaderWritten(m0, m1, cut, NewHeader(bs, i, need))
    && (m2 == m1 || (t == i + 2 && HeaderWritten(m1, m2, bs[i + 1].addr, Header(NULL, NULL, 0, false))))
    && (if t < |bs| then HeaderWritten(m2, m3, bs[t].addr, HeaderOf(bs, t).(previous := cut))
        else m3 == m2 || exists h :: HeaderWritten(m2, m3, NULL, h))
    && HeaderWritten(m3, m4, bs[i].addr, Header(HeaderOf(bs, i).previous, cut, need, bs[i].free))
  }

  /** A header cut out of the payload of block i is apart from every header in the list. */
  lemma FreshApart(bs: seq<Block>, lo: nat, hi: nat, i: nat, need: nat, j: nat)
    requires Tiles(bs, lo, hi) && i < |bs| && j < |bs|
    requires HEADER_SIZE <= need && need + HEADER_SIZE <= bs[i].size
    ensures Apart(bs[i].addr + need, bs[j].addr) && bs[i].addr + need + HEADER_SIZE <= hi
  {
    TilesSpread(bs, lo, hi);
  }

  /** What insert_new_block reads. */
  lemma InsertReads(m: Memory, bs: seq<Block>, i: nat, need: nat, lo: nat, hi: nat)
    requires Tiles(bs, lo, hi) && Linked(m, bs) && 0 < lo && hi < U64 && hi <= |m| && i < |bs|
    requires HEADER_SIZE <= need && need + HEADER_SIZE <= bs[i].size
    ensures HeaderAt(m, bs[i].addr) == HeaderOf(bs, i) && bs[i].addr + need + HEADER_SIZE <= hi
    ensures Apart(bs[i].addr + need, bs[i].addr) && bs[i].End() < U64 && HeaderOf(bs, i).next < U64
    ensures i + 1 < |bs| ==>
      && HeaderOf(bs, i + 1).next < U64
      && lo < bs[i + 1].addr < hi && bs[i + 1].addr + HEADER_SIZE <= |m| && bs[i].size + bs[i + 1].size < U64
      && HeaderAt(m, bs[i + 1].addr) == HeaderOf(bs, i + 1)
      && Apart(bs[i].addr + need, bs[i + 1].addr) && Apart(bs[i].addr, bs[i + 1].addr)
    ensures i + 2 < |bs| ==>
      && lo < bs[i + 2].addr < hi && bs[i + 2].addr + HEADER_SIZE <= |m|
      && HeaderAt(m, bs[i + 2].addr) == HeaderOf(bs, i + 2)
      && Apart(bs[i].addr + need, bs[i + 2].addr) && Apart(bs[i].addr, bs[i + 2].addr)
      && Apart(bs[i + 1].addr, bs[i + 2].addr)
  {
    hide HeaderAt;
    TilesSpread(bs, lo, hi);
    if i + 1 < |bs| { assert bs[i].End() == bs[i + 1].addr; }
  }

  lemma InsertAt(m0: Memory, m1: Memory, m2: Memory, m3: Memory, m4: Memory,
                 bs: seq<Block>, i: nat, need: nat, lo: nat, hi: nat, j: nat)
    requires HEADER_SIZE <= lo
    requires Tiles(bs, lo, hi) && Linked(m0, bs) && InsertStores(m0, m1, m2, m3, m4, bs, i, need)
    requires j < |bs| && (j == i + 1 ==> Following(bs, i) == i + 1)
    ensures bs[j].addr + HEADER_SIZE <= |m4|
    ensures HeaderAt(m4, bs[j].addr) ==
      if j == i then Header(HeaderOf(bs, i).previous, bs[i].addr + need, need, bs[i].free)
      else if j == Following(bs, i) then HeaderOf(bs, j).(previous := bs[i].addr + need)
      else HeaderOf(bs, j)
  {
    hide HeaderAt, Tiles;
    FreshApart(bs, lo, hi, i, need, j);
    TilesBelow(bs, lo, hi, j);
    if j != i { BlocksApart(bs, lo, hi, i, j); }
    if j != i + 1 && i + 1 < |bs| { BlocksApart(bs, lo, hi, i + 1, j); }
    if j != i + 2 && i + 2 < |bs| { BlocksApart(bs, lo, hi, i + 2, j); }
  }

  lemma InsertAtFresh(m0: Memory, m1: Memory, m2: Memory, m3: Memory, m4: Memory,
                      bs: seq<Block>, i: nat, need: nat, lo: nat, hi: nat)
    requires HEADER_SIZE <= lo
    requires Tiles(bs, lo, hi) && Linked(m0, bs) && InsertStores(m0, m1, m2, m3, m4, bs, i, need)
    ensures bs[i].addr + need + HEADER_SIZE <= |m4|
    ensures HeaderAt(m4, bs[i].addr + need) == NewHeader(bs, i, need)
  {
  }

  lemma InsertLinks(m0: Memory, m1: Memory, m2: Memory, m3: Memory, m4: Memory,
                    bs: seq<Block>, i: nat, need: nat, lo: nat, hi: nat)
    requires HEADER_SIZE <= lo
    requires Tiles(bs, lo, hi) && Linked(m0, bs) && InsertStores(m0, m1, m2, m3, m4, bs, i, need)
    ensures Linked(m4, Split(bs, i, need))
  {
    hide HeaderAt, Tiles, HeaderWritten;
    var ss, t := Split(bs, i, need), Following(bs, i);
    forall j | 0 <= j < |ss|
      ensures ss[j].addr + HEADER_SIZE <= |m4| && HeaderAt(m4, ss[j].addr) == HeaderOf(ss, j)
    {
      if j == i + 1 { InsertAtFresh(m0, m1, m2, m3, m4, bs, i, need, lo, hi); }
      else { InsertAt(m0, m1, m2, m3, m4, bs, i, need, lo, hi, if j <= i then j else j - 2 + t - i); }
    }
  }

  lemma InsertFrame(m0: Memory, m1: Memory, m2: Memory, m3: Memory, m4: Memory, bs: seq<Block>, i: nat, need: nat)
    requires InsertStores(m0, m1, m2, m3, m4, bs, i, need) && (Following(bs, i) < |bs| || m3 == m2)
    ensures SameOffHeaders(m0, m4, HeaderAddrs(bs) + {bs[i].addr + need})
  {
    hide HeaderAt, HeaderOf, NewHeader;
    assert bs[i].addr in HeaderAddrs(bs);
    assert i + 1 < |bs| ==> bs[i + 1].addr in HeaderAddrs(bs);
    assert i + 2 < |bs| ==> bs[i + 2].addr in HeaderAddrs(bs);
  }

  /** Marking block i only changes its flag byte. */
  lemma MarkLinks(m: Memory, m': Memory, bs: seq<Block>, i: nat, free: bool, lo: nat, hi: nat)
    requires Tiles(bs, lo, hi) && Linked(m, bs) && i < |bs|
    requires HeaderWritten(m, m', bs[i].addr, HeaderOf(bs, i).(free := free))
    ensures Linked(m', bs[i := bs[i].(free := free)])
    ensures SameOffHeaders(m, m', HeaderAddrs(bs)) && HeaderAddrs(bs[i := bs[i].(free := free)]) <= HeaderAddrs(bs)
  {
    hide HeaderAt, Tiles;
    var cs := bs[i := bs[i].(free := free)];
    forall j | 0 <= j < |bs| ensures HeaderAt(m', cs[j].addr) == HeaderOf(cs, j) {
      assert HeaderAt(m, bs[j].addr) == HeaderOf(bs, j);
      if j != i { BlocksApart(bs, lo, hi, i, j); }
    }
    assert bs[i].addr in HeaderAddrs(bs);
    forall a | a in HeaderAddrs(cs) ensures a in HeaderAddrs(bs) {
      var j :| 0 <= j < |cs| && cs[j].addr == a;
      assert bs[j].addr == a;
    }
  }

  lemma OffHeadersSelf(m: Memory, hs: set<nat>)
    ensures SameOffHeaders(m, m, hs)
  {
  }

  lemma OffHeadersTrans(m: Memory, m1: Memory, m2: Memory, hs: set<nat>, hs1: set<nat>)
    requires SameOffHeaders(m, m1, hs) && SameOffHeaders(m1, m2, hs1) && hs1 <= hs
    ensures SameOffHeaders(m, m2, hs)
  {
  }

  /** Where the allocator stores headers: over a header, or inside a free block. */
  ghost predicate HeaderPlace(bs: seq<Block>, a: nat) {
    exists b :: b in bs && (a == b.addr || (b.free && b.addr <= a && a + HEADER_SIZE <= b.End()))
  }

  lemma HeaderMissesByte(bs: seq<Block>, lo: nat, hi: nat, a: nat, p: nat)
    requires Tiles(bs, lo, hi) && HeaderPlace(bs, a) && (p < lo || hi <= p || InUse(bs, p))
    ensures !(a <= p < a + HEADER_SIZE)
  {
    var b :| b in bs && (a == b.addr || (b.free && b.addr <= a && a + HEADER_SIZE <= b.End()));
    var i :| 0 <= i < |bs| && bs[i] == b;
    TilesBelow(bs, lo, hi, i);
    TilesAbove(bs, lo, hi, i);
    if InUse(bs, p) {
      var c :| c in bs && !c.free && c.Payload() <= p < c.End();
      var j :| 0 <= j < |bs| && bs[j] == c;
      if i < j { TilesInOrder(bs, lo, hi, i, j); }
      if j < i { TilesInOrder(bs, lo, hi, j, i); }
    }
  }

  /** Header stores at such places leave every payload in use alone. */
  lemma HeaderStoresKeepPayloads(m: Memory, m': Memory, bs: seq<Block>, lo: nat, hi: nat, hs: set<nat>)
    requires Tiles(bs, lo, hi) && SameOffHeaders(m, m', hs)
    requires forall a :: a in hs ==> HeaderPlace(bs, a)
    ensures KeepsPayloads(m, m', bs, lo, hi)
  {
    hide Tiles, InUse, HeaderPlace;
    forall p | 0 <= p < |m| && (p < lo || hi <= p || InUse(bs, p)) ensures m'[p] == m[p] {
      forall a | a in hs ensures !(a <= p < a + HEADER_SIZE) {
        HeaderMissesByte(bs, lo, hi, a, p);
      }
    }
  }

  lemma OffHeadersWider(m: Memory, m': Memory, hs: set<nat>, hs': set<nat>)
    requires SameOffHeaders(m, m', hs) && hs <= hs'
    ensures SameOffHeaders(m, m', hs')
  {
  }

  /** A cleared header inside the payload of block j is out of reach of stores to the list's headers. */
  lemma OffHeadersReads(m: Memory, m': Memory, bs: seq<Block>, j: nat, x: nat, lo: nat, hi: nat)
    requires Tiles(bs, lo, hi) && SameOffHeaders(m, m', HeaderAddrs(bs)) && j < |bs| && hi <= |m|
    requires bs[j].Payload() <= x && x + HEADER_SIZE <= bs[j].End()
    ensures x + HEADER_SIZE <= |m| && HeaderAt(m', x) == HeaderAt(m, x)
  {
    TilesSpread(bs, lo, hi);
    forall p | x <= p < x + HEADER_SIZE ensures m'[p] == m[p] {
      forall a | a in HeaderAddrs(bs) ensures !(a <= p < a + HEADER_SIZE) {
        var k :| 0 <= k < |bs| && bs[k].addr == a;
      }
    }
    assert m'[x..x + 8] == m[x..x + 8] && m'[x + 8..x + 16] == m[x + 8..x + 16];
    assert m'[x + 16..x + 24] == m[x + 16..x + 24];
  }

  /** Merging block i with its right neighbour puts the neighbour inside the merged payload. */
  lemma Absorbing(bs: seq<Block>, i: nat, lo: nat, hi: nat)
    requires Tiles(bs, lo, hi) && i + 1 < |bs|
    ensures Merge(bs, i)[i].Payload() <= bs[i + 1].addr && Merge(bs, i)[i].End() == bs[i + 1].End()
    ensures bs[i + 1].addr + HEADER_SIZE <= bs[i + 1].End()
  {
    assert bs[i].End() == bs[i + 1].addr;
  }

  lemma MarkUsedTiles(bs: seq<Block>, i: nat, lo: nat, hi: nat)
    requires Tiles(bs, lo, hi) && i < |bs|
    ensures Tiles(bs[i := bs[i].(free := false)], lo, hi)
  {
  }

  lemma HeaderPlaces(bs: seq<Block>, i: nat, need: nat)
    requires i < |bs|
    ensures forall a :: a in HeaderAddrs(bs) ==> HeaderPlace(bs, a)
    ensures bs[i].Fits(need) && bs[i].Worth(need) ==> HeaderPlace(bs, bs[i].addr + need)
  {
  }

  /** The payload handed out by malloc holds the request. */
  lemma GrantedRoom(bs: seq<Block>, i: nat, request: nat, lo: nat, hi: nat)
    requires Tiles(bs, lo, hi) && Coalesced(bs) && request < ROUNDING_LIMIT
    requires i < |bs| && bs[i].Fits(AlignedSize(request))
    ensures var cs := Allocate(bs, i, AlignedSize(request));
      && i < |cs| && cs[i] == Granted(bs, i, AlignedSize(request))
      && cs[i].Payload() + request < cs[i].End() <= bs[i].End() <= hi
  {
    AlignedSizeGrowth(request);
    AllocatePositions(bs, i, AlignedSize(request));
    TilesAbove(bs, lo, hi, i);
  }

  /** A store inside one payload disturbs no header. */
  lemma PayloadStore(m: Memory, m': Memory, bs: seq<Block>, i: nat, p: nat, n: nat, lo: nat, hi: nat)
    requires Tiles(bs, lo, hi) && Linked(m, bs) && i < |bs| && SameOutside(m, m', p, n)
    requires bs[i].Payload() <= p && p + n <= bs[i].End()
    ensures Linked(m', bs)
  {
    hide HeaderAt;
    TilesSpread(bs, lo, hi);
    forall j | 0 <= j < |bs| ensures HeaderAt(m', bs[j].addr) == HeaderOf(bs, j) {
      assert HeaderAt(m, bs[j].addr) == HeaderOf(bs, j);
      HeaderKept(m, m', p, n, bs[j].addr);
    }
  }

  /** A store inside a block that was free keeps every payload then in use. */
  lemma FreeStoreKeeps(m0: Memory, m1: Memory, m2: Memory, bs: seq<Block>, i: nat, p: nat, n: nat, lo: nat, hi: nat)
    requires Tiles(bs, lo, hi) && KeepsPayloads(m0, m1, bs, lo, hi) && i < |bs| && bs[i].free
    requires SameOutside(m1, m2, p, n) && bs[i].addr <= p && p + n <= bs[i].End()
    ensures KeepsPayloads(m0, m2, bs, lo, hi)
  {
    TilesSpread(bs, lo, hi);
    forall q | 0 <= q < |m0| && (q < lo || hi <= q || InUse(bs, q)) ensures !(p <= q < p + n) {
      if InUse(bs, q) {
        var b :| b in bs && !b.free && b.Payload() <= q < b.End();
        var k :| 0 <= k < |bs| && bs[k] == b;
      }
    }
  }

  class Heap {
    const ram: array<bv8>
    var start: nat
    var size: nat
    ghost var blocks: seq<Block>

    constructor (ram: array<bv8>)
      ensures this.ram == ram
    {
      this.ram := ram;
      start, size := 0, 0;
      blocks := [];
    }

    ghost function Limit(): int reads this { start + size - HEADER_SIZE }

    /** Structure alone; this is what the internal steps keep. */
    ghost predicate Structured() reads this, ram {
      && HEADER_SIZE <= start && 2 * HEADER_SIZE <= size && Limit() <= ram.Length < U64
      && Tiles(blocks, start, Limit())
      && Linked(ram[..], blocks)
    }

    ghost predicate Valid() reads this, ram {
      Structured() && Coalesced(blocks)
    }

    // -------------------------------------------------------------- field access

    function Hdr(a: nat): Header
      requires a + HEADER_SIZE <= ram.Length
      reads ram
    {
      HeaderAt(ram[..], a)
    }

    method WritePrevious(a: nat, v: nat)
      requires a + HEADER_SIZE <= ram.Length && v < U64
      modifies ram
      ensures ram[..] == SetPrevious(old(ram[..]), a, v)
    {
      StoreBytes(ram, a, ToLE(v, 8));
    }

    method WriteNext(a: nat, v: nat)
      requires a + HEADER_SIZE <= ram.Length && v < U64
      modifies ram
      ensures ram[..] == SetNext(old(ram[..]), a, v)
    {
      StoreBytes(ram, a + 8, ToLE(v, 8));
    }

    method WriteSize(a: nat, v: nat)
      requires a + HEADER_SIZE <= ram.Length && v < U64
      modifies ram
      ensures ram[..] == SetSize(old(ram[..]), a, v)
    {
      StoreBytes(ram, a + 16, ToLE(v, 8));
    }

    method WriteFree(a: nat, v: bool)
      requires a + HEADER_SIZE <= ram.Length
      modifies ram
      ensures ram[..] == SetFree(old(ram[..]), a, v)
    {
      ram[a + FREE_OFFSET] := if v then 1 else 0;
    }

    method Clear(a: nat)
      requires a + HEADER_SIZE <= ram.Length
      modifies ram
      ensures ram[..] == ClearHeader(old(ram[..]), a)
    {
      StoreBytes(ram, a, Zeros(HEADER_SIZE));
    }

    // -------------------------------------------------------------- list operations

    /** hdr_addr_is_valid; repair: NULL is not a valid header address. */
    predicate HdrAddrIsValid(hdr: nat)
      reads this
    {
      hdr != NULL && hdr < start + size - HEADER_SIZE
    }

    /** The four field stores that start a header, in the order the code makes them. */
    method FillHeader(a: nat, size: nat, previous: nat, next: nat)
      requires a + HEADER_SIZE <= ram.Length && size < U64 && previous < U64 && next < U64
      modifies ram
      ensures HeaderWritten(old(ram[..]), ram[..], a, Header(previous, next, size, true))
    {
      hide HeaderAt;
      WriteFree(a, true);
      WriteSize(a, size);
      WritePrevious(a, previous);
      WriteNext(a, next);
    }

    method HeapInit(at: nat, bytes: nat)
      requires HEADER_SIZE <= at && 2 * HEADER_SIZE <= bytes && at + bytes - HEADER_SIZE <= ram.Length < U64
      modifies this, ram
      ensures Valid() && start == at && size == bytes
      ensures blocks == [Block(at, bytes - 32, true)]
    {
      hide HeaderAt;
      start, size := at, bytes;
      FillHeader(start, size - HEADER_SIZE, NULL, NULL);
      blocks := [Block(at, bytes - HEADER_SIZE, true)];
    }

    method GetFreeBlock(need: nat) returns (hdr: nat)
      requires Structured()
      ensures var i := FirstFit(blocks, need);
        hdr == if i < |blocks| then blocks[i].addr else NULL
    {
      hide HeaderAt;
      hdr := start;
      ghost var k := 0;
      AtBlock(ram[..], blocks, start, Limit(), k);
      while !Hdr(hdr).free || Hdr(hdr).size < need
        invariant k < |blocks| && hdr == blocks[k].addr
        invariant hdr + HEADER_SIZE <= ram.Length && Hdr(hdr) == HeaderOf(blocks, k)
        invariant forall j :: 0 <= j < k ==> !blocks[j].Fits(need)
        decreases |blocks| - k
      {
        AtBlock(ram[..], blocks, start, Limit(), k);
        if !HdrAddrIsValid(Hdr(hdr).next) {
          return NULL;
        }
        hdr := Hdr(hdr).next;
        k := k + 1;
        AtBlock(ram[..], blocks, start, Limit(), k);
      }
    }

    /** fuse_blocks; repair: first is the lower block, and the successor itself is tested. */
    method FuseBlocks(first: nat, second: nat, ghost i: nat)
      requires Structured() && i + 1 < |blocks|
      requires first == blocks[i].addr && second == blocks[i + 1].addr
      modifies ram, this`blocks
      ensures blocks == Merge(old(blocks), i) && Linked(ram[..], blocks)
      ensures second + HEADER_SIZE <= ram.Length && Hdr(second) == Header(NULL, NULL, 0, false)
      ensures SameOffHeaders(old(ram[..]), ram[..], HeaderAddrs(old(blocks)))
    {
      hide HeaderAt, HeaderWritten, SetPrevious, SetNext, SetSize, SetFree, ClearHeader, Linked, Tiles;
      ghost var m0, bs := ram[..], blocks;
      ghost var h1, h := HeaderOf(bs, i).(size := bs[i].size + bs[i + 1].size), FusedHeader(bs, i);
      FuseReads(m0, bs, i, start, Limit());
      WriteSize(first, Hdr(first).size + Hdr(second).size);
      ghost var m1 := ram[..];
      WrittenReads(m0, m1, first, h1, second);
      WriteNext(first, Hdr(second).next);
      ghost var m2 := ram[..];
      WrittenTwice(m0, m1, m2, first, h1, h);
      WrittenReads(m0, m2, first, h, if i + 2 < |bs| then bs[i + 2].addr else second);
      if HdrAddrIsValid(Hdr(first).next) {
        WritePrevious(Hdr(first).next, first);
      }
      ghost var m3 := ram[..];
      Clear(second);
      FuseLinks(m0, m2, m3, ram[..], bs, i, start, Limit());
      FuseFrame(m0, m2, m3, ram[..], bs, i);
      blocks := Merge(blocks, i);
    }

    /** fuse_blocks on two free neighbours, seen from the walk. */
    method FuseStep(first: nat, second: nat, ghost i: nat)
      requires Structured() && i + 1 < |blocks| && blocks[i].free && blocks[i + 1].free
      requires first == blocks[i].addr && second == blocks[i + 1].addr
      modifies ram, this`blocks
      ensures Structured() && blocks == Merge(old(blocks), i) && HeaderAddrs(blocks) <= HeaderAddrs(old(blocks))
      ensures second + HEADER_SIZE <= ram.Length && Hdr(second) == Header(NULL, NULL, 0, false)
      ensures SameOffHeaders(old(ram[..]), ram[..], HeaderAddrs(old(blocks)))
    {
      hide HeaderAt;
      MergeKeeps(blocks, i, start, Limit());
      FuseBlocks(first, second, i);
    }

    method FuseForward(hdr: nat, ghost i: nat)
      requires Structured() && i < |blocks| && hdr == blocks[i].addr && blocks[i].free
      modifies ram, this`blocks
      ensures Structured() && blocks == FuseRight(old(blocks), i)
      ensures hdr == blocks[i].addr && blocks[i].free && HeaderAddrs(blocks) <= HeaderAddrs(old(blocks))
      ensures SameOffHeaders(old(ram[..]), ram[..], HeaderAddrs(old(blocks)))
    {
      hide HeaderAt, SameOffHeaders, Linked, Tiles;
      ghost var m0, as0 := ram[..], HeaderAddrs(blocks);
      OffHeadersSelf(m0, as0);
      AtBlock(ram[..], blocks, start, Limit(), i);
      while HdrAddrIsValid(Hdr(hdr).next)
        invariant Structured() && i < |blocks| && hdr == blocks[i].addr && blocks[i].free
        invariant hdr + HEADER_SIZE <= ram.Length && Hdr(hdr) == HeaderOf(blocks, i)
        invariant FuseRight(blocks, i) == FuseRight(old(blocks), i)
        invariant HeaderAddrs(blocks) <= as0 && SameOffHeaders(m0, ram[..], as0)
        decreases |blocks|
      {
        AtBlock(ram[..], blocks, start, Limit(), i + 1);
        if !Hdr(Hdr(hdr).next).free {
          break;
        }
        ghost var m1, as1 := ram[..], HeaderAddrs(blocks);
        FuseStep(hdr, Hdr(hdr).next, i);
        OffHeadersTrans(m0, m1, ram[..], as0, as1);
        AtBlock(ram[..], blocks, start, Limit(), i);
      }
      AtBlock(ram[..], blocks, start, Limit(), i);
    }

    method FuseBackward(at: nat, ghost i: nat)
      requires Structured() && i < |blocks| && at == blocks[i].addr && blocks[i].free
      modifies ram, this`blocks
      ensures Structured() && blocks == FuseLeft(old(blocks), i) && at + HEADER_SIZE <= ram.Length
      ensures Hdr(at).free == (i == 0 || !old(blocks)[i - 1].free)
      ensures SameOffHeaders(old(ram[..]), ram[..], HeaderAddrs(old(blocks)))
    {
      hide HeaderAt, SameOffHeaders, Linked, Tiles;
      ghost var m0, as0 := ram[..], HeaderAddrs(blocks);
      OffHeadersSelf(m0, as0);
      var hdr := at;
      ghost var j: nat := i;
      AtBlock(ram[..], blocks, start, Limit(), j);
      while HdrAddrIsValid(Hdr(hdr).previous)
        invariant Structured() && j < |blocks| && hdr == blocks[j].addr && blocks[j].free
        invariant hdr + HEADER_SIZE <= ram.Length && Hdr(hdr) == HeaderOf(blocks, j)
        invariant FuseLeft(blocks, j) == FuseLeft(old(blocks), i)
        invariant j <= i && (j == i ==> blocks == old(blocks))
        invariant at + HEADER_SIZE <= ram.Length
        invariant j < i ==> old(blocks)[i - 1].free && Hdr(at) == Header(NULL, NULL, 0, false)
        invariant j < i ==> blocks[j].Payload() <= at && at + HEADER_SIZE <= blocks[j].End()
        invariant HeaderAddrs(blocks) <= as0 && SameOffHeaders(m0, ram[..], as0)
        decreases |blocks|
      {
        AtBlock(ram[..], blocks, start, Limit(), j);
        AtBlock(ram[..], blocks, start, Limit(), j - 1);
        if !Hdr(Hdr(hdr).previous).free {
          break;
        }
        ghost var m1, as1 := ram[..], HeaderAddrs(blocks);
        var before := Hdr(hdr).previous;
        ghost var was := blocks;
        Absorbing(was, j - 1, start, Limit());
        FuseStep(before, hdr, j - 1);
        if j < i { OffHeadersReads(m1, ram[..], was, j, at, start, Limit()); }
        OffHeadersTrans(m0, m1, ram[..], as0, as1);
        hdr := before; // repair: the walk goes on from the merged block, whose header is the left one
        j := j - 1;
        AtBlock(ram[..], blocks, start, Limit(), j);
      }
      AtBlock(ram[..], blocks, start, Limit(), j);
    }

    /** fuse_walkthrough: its two loops, one after the other. */
    method FuseWalkthrough(hdr: nat, ghost i: nat)
      requires Structured() && i < |blocks| && hdr == blocks[i].addr && blocks[i].free
      modifies ram, this`blocks
      ensures Structured() && blocks == FuseLeft(FuseRight(old(blocks), i), i) && hdr + HEADER_SIZE <= ram.Length
      ensures Hdr(hdr).free == (i == 0 || !FuseRight(old(blocks), i)[i - 1].free)
      ensures SameOffHeaders(old(ram[..]), ram[..], HeaderAddrs(old(blocks)))
    {
      hide HeaderAt, SameOffHeaders, Linked, Tiles;
      ghost var as0 := HeaderAddrs(blocks);
      FuseForward(hdr, i);
      ghost var m1, as1 := ram[..], HeaderAddrs(blocks);
      FuseBackward(hdr, i);
      OffHeadersTrans(old(ram[..]), m1, ram[..], as0, as1);
    }

    method DeleteBlock(hdr: nat, ghost i: nat)
      requires Valid() && i < |blocks| && hdr == blocks[i].addr
      modifies ram, this`blocks
      ensures Valid() && blocks == Release(old(blocks), i) && hdr + HEADER_SIZE <= ram.Length
      ensures Hdr(hdr).free == (i == 0 || !old(blocks)[i - 1].free)
      ensures SameOffHeaders(old(ram[..]), ram[..], HeaderAddrs(old(blocks)))
    {
      hide HeaderAt;
      ghost var m0, bs := ram[..], blocks;
      AtBlock(m0, bs, start, Limit(), i);
      WriteFree(hdr, true);
      MarkLinks(m0, ram[..], bs, i, true, start, Limit());
      MarkFreeKeeps(bs, i, start, Limit());
      blocks := bs[i := bs[i].(free := true)];
      ghost var blocks1 := blocks;
      ghost var m1, as1 := ram[..], HeaderAddrs(blocks);
      FuseWalkthrough(hdr, i);
      OffHeadersTrans(m0, m1, ram[..], HeaderAddrs(bs), as1);
      ReleaseIsCoalesce(bs, i);
      FuseRightPrefix(blocks1, i);
    }

    /** space_for_new_blk; repair: no 64-bit wrap when the block is a tight fit. */
    function SpaceForNewBlk(hdr: nat, need: nat): bool
      requires hdr + HEADER_SIZE <= ram.Length
      reads ram
    {
      Hdr(hdr).size > need + HEADER_SIZE + 2 * HEADER_SIZE
    }

    /** The new header a takes over its free right neighbour b, whose header is cleared. */
    method Absorb(a: nat, b: nat, ghost h: Header, ghost h': Header) returns (ghost m2: Memory)
      requires a + HEADER_SIZE <= ram.Length && b + HEADER_SIZE <= ram.Length && Apart(a, b)
      requires Hdr(a) == h && Hdr(b) == h' && h.size + h'.size < U64 && h'.next < U64
      modifies ram
      ensures HeaderWritten(old(ram[..]), m2, a, h.(size := h.size + h'.size, next := h'.next))
      ensures HeaderWritten(m2, ram[..], b, Header(NULL, NULL, 0, false))
    {
      hide HeaderAt, HeaderWritten, SetNext, SetSize, ClearHeader;
      ghost var m0 := ram[..];
      WriteSize(a, Hdr(a).size + Hdr(b).size);
      ghost var m1 := ram[..];
      WrittenReads(m0, m1, a, h.(size := h.size + h'.size), b);
      WriteNext(a, Hdr(b).next);
      m2 := ram[..];
      WrittenTwice(m0, m1, m2, a, h.(size := h.size + h'.size), h.(size := h.size + h'.size, next := h'.next));
      WrittenReads(m0, m2, a, h.(size := h.size + h'.size, next := h'.next), b);
      Clear(b); // repair: the absorbed header, not the one after it
    }

    method CutHeader(hdr: nat, need: nat, next: nat, ghost h: Header)
      requires hdr + HEADER_SIZE <= ram.Length && Hdr(hdr) == h && need < U64 && next < U64
      modifies ram
      ensures HeaderWritten(old(ram[..]), ram[..], hdr, Header(h.previous, next, need, h.free))
    {
      hide HeaderAt;
      WriteSize(hdr, need);
      WriteNext(hdr, next);
    }

    method InsertNewBlock(hdr: nat, need: nat, ghost i: nat)
      requires Structured() && i < |blocks| && hdr == blocks[i].addr
      requires HEADER_SIZE <= need && need + HEADER_SIZE <= blocks[i].size
      modifies ram, this`blocks
      ensures blocks == Split(old(blocks), i, need) && Linked(ram[..], blocks)
      ensures SameOffHeaders(old(ram[..]), ram[..], HeaderAddrs(old(blocks)) + {hdr + need})
    {
      hide HeaderAt, HeaderWritten, SetPrevious, SetNext, SetSize, SetFree, ClearHeader, Linked, Tiles;
      ghost var m0, bs, last := ram[..], blocks, |blocks|;
      InsertReads(m0, bs, i, need, start, Limit());
      var next := hdr + need;
      ghost var h := Header(hdr, HeaderOf(bs, i).next, bs[i].size - need, true);
      FillHeader(next, Hdr(hdr).size - need, hdr, Hdr(hdr).next);
      ghost var m1 := ram[..];
      WrittenReads(m0, m1, next, h, hdr);
      if i + 1 < last { WrittenReads(m0, m1, next, h, bs[i + 1].addr); }
      if i + 2 < last { WrittenReads(m0, m1, next, h, bs[i + 2].addr); }
      if HdrAddrIsValid(Hdr(next).next) && Hdr(Hdr(next).next).free { // repair: only a valid successor is read
        ghost var b := bs[i + 1].addr;
        ghost var mid := Absorb(next, Hdr(next).next, h, HeaderOf(bs, i + 1));
        WrittenTwice(m0, m1, mid, next, h, NewHeader(bs, i, need));
        m1 := mid;
        WrittenReads(m0, m1, next, NewHeader(bs, i, need), hdr);
        if i + 2 < last { WrittenReads(m0, m1, next, NewHeader(bs, i, need), bs[i + 2].addr); }
        WrittenReads(m1, ram[..], b, Header(NULL, NULL, 0, false), next);
        WrittenReads(m1, ram[..], b, Header(NULL, NULL, 0, false), hdr);
        if i + 2 < last { WrittenReads(m1, ram[..], b, Header(NULL, NULL, 0, false), bs[i + 2].addr); }
      }
      ghost var m2, t := ram[..], Following(bs, i);
      assert HeaderAt(m2, next) == NewHeader(bs, i, need) && HeaderAt(m2, hdr) == HeaderOf(bs, i);
      assert t < last ==> HeaderAt(m2, bs[t].addr) == HeaderOf(bs, t);
      if HdrAddrIsValid(Hdr(next).next) { // repair: only a valid successor is written
        WritePrevious(Hdr(next).next, next);
        WrittenReads(m2, ram[..], bs[t].addr, HeaderOf(bs, t).(previous := next), hdr);
      }
      ghost var m3 := ram[..];
      CutHeader(hdr, need, next, HeaderOf(bs, i));
      InsertLinks(m0, m1, m2, m3, ram[..], bs, i, need, start, Limit());
      InsertFrame(m0, m1, m2, m3, ram[..], bs, i, need);
      blocks := Split(bs, i, need);
    }

    method AllocateBlock(hdr: nat, need: nat, ghost i: nat)
      requires Valid() && i < |blocks| && hdr == blocks[i].addr && blocks[i].Fits(need) && HEADER_SIZE <= need
      modifies ram, this`blocks
      ensures Valid() && blocks == Allocate(old(blocks), i, need)
      ensures KeepsPayloads(old(ram[..]), ram[..], old(blocks), start, Limit())
    {
      hide HeaderAt, SameOffHeaders, KeepsPayloads, Linked, Tiles, Split;
      ghost var m0, bs := ram[..], blocks;
      AtBlock(m0, bs, start, Limit(), i);
      AllocateKeeps(bs, i, need, start, Limit());
      WriteFree(hdr, false);
      MarkLinks(m0, ram[..], bs, i, false, start, Limit());
      MarkUsedTiles(bs, i, start, Limit());
      blocks := bs[i := bs[i].(free := false)];
      ghost var m1, taken := ram[..], blocks;
      AtBlock(m1, blocks, start, Limit(), i);
      ghost var hs := HeaderAddrs(bs) + {hdr + need};
      OffHeadersWider(m0, m1, HeaderAddrs(bs), hs);
      if SpaceForNewBlk(hdr, need) { // repair: the last block too is split only when there is space
        InsertNewBlock(hdr, need, i);
        OffHeadersTrans(m0, m1, ram[..], hs, HeaderAddrs(taken) + {hdr + need});
        HeaderPlaces(bs, i, need);
        HeaderStoresKeepPayloads(m0, ram[..], bs, start, Limit(), hs);
      } else {
        HeaderPlaces(bs, i, need);
        HeaderStoresKeepPayloads(m0, ram[..], bs, start, Limit(), HeaderAddrs(bs));
      }
    }

    method Malloc(request: nat) returns (p: nat)
      requires Valid() && request < U64
      modifies ram, this`blocks
      ensures Valid() && (blocks, p) == MallocSpec(old(blocks), request)
      ensures KeepsPayloads(old(ram[..]), ram[..], old(blocks), start, Limit())
    {
      hide HeaderAt, SameOffHeaders, Linked, Tiles, Allocate;
      if request >= ROUNDING_LIMIT { // repair: the rounding would wrap
        return NULL;
      }
      AlignedSizeGrowth(request);
      var need := AlignedSize(request);
      var hdr := GetFreeBlock(need);
      ghost var i := FirstFit(blocks, need);
      if hdr == NULL {
        if i < |blocks| { TilesBelow(blocks, start, Limit(), i); }
        return NULL;
      }
      AllocateBlock(hdr, need, i);
      p := hdr + HEADER_SIZE;
    }

    method Calloc(count: nat, size: nat) returns (p: nat)
      requires Valid() && count < U64 && size < U64
      modifies ram, this`blocks
      ensures Valid() && (blocks, p) == CallocSpec(old(blocks), count, size)
      ensures KeepsPayloads(old(ram[..]), ram[..], old(blocks), start, Limit())
      ensures p != NULL ==> p + count * size <= ram.Length && forall q :: p <= q < p + count * size ==> ram[q] == 0
    {
      var total := count * size;
      if total >= U64 { // repair: the product would wrap
        return NULL;
      }
      ghost var m0, bs := ram[..], blocks;
      p := Malloc(total);
      if p != NULL {
        ghost var m1, i := ram[..], FirstFit(bs, AlignedSize(total));
        GrantedRoom(bs, i, total, start, Limit());
        StoreBytes(ram, p, Zeros(total));
        PayloadStore(m1, ram[..], blocks, i, p, total, start, Limit());
        FreeStoreKeeps(m0, m1, ram[..], bs, i, p, total, start, Limit());
      }
    }

    /** free; panic is the terminal outcome reported by the result. */
    method Free(p: nat) returns (panicked: bool)
      requires Valid() && HEADER_SIZE <= p && IndexOf(blocks, p - HEADER_SIZE) < |blocks|
      modifies ram, this`blocks
      ensures var i := IndexOf(old(blocks), p - HEADER_SIZE);
        && Valid() && panicked == old(blocks)[i].free
        && blocks == (if panicked then old(blocks) else Release(old(blocks), i))
        && p <= ram.Length
        && (!panicked ==> (Hdr(p - HEADER_SIZE).free <==> (i == 0 || !old(blocks)[i - 1].free)))
      ensures KeepsPayloads(old(ram[..]), ram[..], old(blocks), start, Limit())
    {
      hide HeaderAt, SameOffHeaders, Linked, Tiles, Release;
      var hdr := p - HEADER_SIZE;
      ghost var bs, i := blocks, IndexOf(blocks, p - HEADER_SIZE);
      AtBlock(ram[..], bs, start, Limit(), i);
      if Hdr(hdr).free {
        return true;
      }
      DeleteBlock(hdr, i);
      HeaderPlaces(bs, i, 0);
      HeaderStoresKeepPayloads(old(ram[..]), ram[..], bs, start, Limit(), HeaderAddrs(bs));
      return false;
    }
  }
}
