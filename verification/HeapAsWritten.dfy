/**
 The heap allocator exactly as its text reads, on the same flat memory.

 NULL is address 0: the text treats it as a valid header and reads and writes the 32 bytes there.
 An access outside memory is a fault.  Loops take a bound on their turns; Running means that the
 bound was not enough.
 */
module HeapAsWritten {
  import opened Arithmetic
  import opened Bytes
  import opened Blocks
  import opened Headers
  import opened HeapAllocator

  datatype Run<+T> = Done(value: T) | Fault | Running {
    predicate IsFailure() { !Done? }
    function PropagateFailure<U>(): Run<U> requires IsFailure() { if Fault? then Fault else Running }
    function Extract(): T requires Done? { value }
  }

  function Load(m: Memory, a: nat): Run<Header> {
    if a + HEADER_SIZE <= |m| then Done(HeaderAt(m, a)) else Fault
  }

  function PutPrevious(m: Memory, a: nat, v: nat): Run<Memory> {
    if a + HEADER_SIZE <= |m| then Done(SetPrevious(m, a, v % U64)) else Fault
  }

  function PutNext(m: Memory, a: nat, v: nat): Run<Memory> {
    if a + HEADER_SIZE <= |m| then Done(SetNext(m, a, v % U64)) else Fault
  }

  function PutSize(m: Memory, a: nat, v: int): Run<Memory> {
    if a + HEADER_SIZE <= |m| then Done(SetSize(m, a, v % U64)) else Fault
  }

  function PutFree(m: Memory, a: nat, v: bool): Run<Memory> {
    if a + HEADER_SIZE <= |m| then Done(SetFree(m, a, v)) else Fault
  }

  function PutZero(m: Memory, a: nat): Run<Memory> {
    if a + HEADER_SIZE <= |m| then Done(ClearHeader(m, a)) else Fault
  }

  // ---------------------------------------------------------------- the text

  /** The first 512 bytes are skipped: the scaled pointer addition moves 16 headers ahead. */
  function HeapStart(start: nat): nat { start + 16 * HEADER_SIZE }

  function Limit(start: nat, size: nat): int { HeapStart(start) + size - HEADER_SIZE }

  function HeapInit(m: Memory, start: nat, size: nat): Run<Memory> {
    var hdr := HeapStart(start);
    var m1 :- PutFree(m, hdr, true);
    var m2 :- PutSize(m1, hdr, size - HEADER_SIZE);
    var m3 :- PutPrevious(m2, hdr, NULL);
    PutNext(m3, hdr, NULL)
  }

  predicate HdrAddrIsValid(hdr: nat, limit: nat) { hdr < limit }

  function FuseBlocks(m: Memory, a: nat, b: nat, limit: nat): Run<Memory> {
    var first := if a > b then a else b;
    var second := if a > b then b else a;
    var f :- Load(m, first);
    var s :- Load(m, second);
    var m1 :- PutSize(m, first, f.size + s.size);
    var s1 :- Load(m1, second);
    var m2 :- PutNext(m1, first, s1.next);
    var f2 :- Load(m2, first);
    var fn :- Load(m2, f2.next);
    var m3 :- if HdrAddrIsValid(fn.next, limit) then PutPrevious(m2, f2.next, first) else Done(m2);
    PutZero(m3, second)
  }

  function FuseForward(m: Memory, hdr: nat, limit: nat, turns: nat): Run<Memory>
    decreases turns
  {
    var h :- Load(m, hdr);
    if !HdrAddrIsValid(h.next, limit) then Done(m)
    else
      var n :- Load(m, h.next);
      if !n.free then Done(m)
      else if turns == 0 then Running
      else
        var m' :- FuseBlocks(m, hdr, h.next, limit);
        FuseForward(m', hdr, limit, turns - 1)
  }

  function FuseBackward(m: Memory, hdr: nat, limit: nat, turns: nat): Run<Memory>
    decreases turns
  {
    var h :- Load(m, hdr);
    if !HdrAddrIsValid(h.previous, limit) then Done(m)
    else
      var p :- Load(m, h.previous);
      if !p.free then Done(m)
      else if turns == 0 then Running
      else
        var m' :- FuseBlocks(m, hdr, h.previous, limit);
        FuseBackward(m', hdr, limit, turns - 1)
  }

  function FuseWalkthrough(m: Memory, hdr: nat, limit: nat, turns: nat): Run<Memory> {
    var m1 :- FuseForward(m, hdr, limit, turns);
    FuseBackward(m1, hdr, limit, turns)
  }

  function GetFreeBlock(m: Memory, hdr: nat, need: nat, limit: nat, turns: nat): Run<nat>
    decreases turns
  {
    var h :- Load(m, hdr);
    if h.free && need <= h.size then Done(hdr)
    else if !HdrAddrIsValid(h.next, limit) then Done(NULL)
    else if turns == 0 then Running
    else GetFreeBlock(m, h.next, need, limit, turns - 1)
  }

  predicate SpaceForNewBlk(size: nat, need: nat) {
    (size - need - HEADER_SIZE) % U64 > 2 * HEADER_SIZE
  }

  /** insert_new_block up to its conditional. */
  function StartHeader(m: Memory, hdr: nat, next: nat, need: nat): Run<Memory> {
    var m1 :- PutFree(m, next, true);
    var h1 :- Load(m1, hdr);
    var m2 :- PutSize(m1, next, h1.size - need);
    var m3 :- PutPrevious(m2, next, hdr);
    var h3 :- Load(m3, hdr);
    PutNext(m3, next, h3.next)
  }

  /** The conditional in the middle of insert_new_block; the cleared header is read back through next. */
  function SwallowFree(m: Memory, next: nat): Run<Memory> {
    var n :- Load(m, next);
    var nn :- Load(m, n.next);
    if !nn.free then Done(m)
    else
      var m1 :- PutSize(m, next, n.size + nn.size);
      var nn1 :- Load(m1, n.next);
      var m2 :- PutNext(m1, next, nn1.next);
      var n2 :- Load(m2, next);
      PutZero(m2, n2.next)
  }

  /** insert_new_block after its conditional. */
  function LinkHeader(m: Memory, hdr: nat, next: nat, need: nat): Run<Memory> {
    var n :- Load(m, next);
    var m1 :- PutPrevious(m, n.next, next);
    var m2 :- PutSize(m1, hdr, need);
    PutNext(m2, hdr, next)
  }

  function InsertNewBlock(m: Memory, hdr: nat, need: nat): Run<Memory> {
    var next := (hdr + need) % U64;
    var m1 :- StartHeader(m, hdr, next, need);
    var m2 :- SwallowFree(m1, next);
    LinkHeader(m2, hdr, next, need)
  }

  function AllocateBlock(m: Memory, hdr: nat, need: nat, limit: nat): Run<Memory> {
    var m1 :- PutFree(m, hdr, false);
    var h :- Load(m1, hdr);
    if HdrAddrIsValid(h.next, limit) then
      if SpaceForNewBlk(h.size, need) then InsertNewBlock(m1, hdr, need) else Done(m1)
    else
      if h.next == NULL then InsertNewBlock(m1, hdr, need) else Done(m1)
  }

  function Malloc(m: Memory, start: nat, limit: nat, request: nat, turns: nat): Run<(Memory, nat)>
    requires request < U64
  {
    var need := AlignedSize(request);
    var hdr :- GetFreeBlock(m, start, need, limit, turns);
    if hdr == NULL then Done((m, NULL))
    else
      var m' :- AllocateBlock(m, hdr, need, limit);
      Done((m', hdr + HEADER_SIZE))
  }

  /** The product wraps; memset stores that many zeros. */
  function Calloc(m: Memory, start: nat, limit: nat, count: nat, size: nat, turns: nat): Run<(Memory, nat)> {
    var total := count * size % U64;
    var r :- Malloc(m, start, limit, total, turns);
    if r.1 == NULL then Done(r)
    else if r.1 + total <= |r.0| then Done((Store(r.0, r.1, Zeros(total)), r.1))
    else Fault
  }

  /** free of a pointer whose header is not marked free; the marked case panics. */
  function DeleteBlock(m: Memory, hdr: nat, limit: nat, turns: nat): Run<Memory> {
    var m1 :- PutFree(m, hdr, true);
    FuseWalkthrough(m1, hdr, limit, turns)
  }

  // ---------------------------------------------------------------- setting

  /** Memory holds the blocks of a coalesced heap. */
  ghost predicate Setting(m: Memory, bs: seq<Block>, lo: nat, hi: nat) {
    && HEADER_SIZE <= lo && hi < U64 && hi <= |m|
    && Tiles(bs, lo, hi) && Coalesced(bs) && Linked(m, bs)
  }

  /** The bytes at NULL do not look like a free header. */
  predicate Quiet(m: Memory) { HEADER_SIZE <= |m| && !HeaderAt(m, NULL).free }

  /** As KeepsPayloads, for the bytes from address k up. */
  ghost predicate KeepsAbove(k: nat, m: Memory, m': Memory, bs: seq<Block>, lo: nat, hi: nat) {
    |m| == |m'| && forall p :: k <= p < |m| && (p < lo || hi <= p || InUse(bs, p)) ==> m'[p] == m[p]
  }

  lemma KeepsChain(k: nat, m: Memory, m1: Memory, m2: Memory, bs: seq<Block>, lo: nat, hi: nat)
    requires KeepsAbove(k, m, m1, bs, lo, hi) && KeepsAbove(k, m1, m2, bs, lo, hi)
    ensures KeepsAbove(k, m, m2, bs, lo, hi)
  {
  }

  lemma KeepsFromZero(k: nat, m: Memory, m': Memory, bs: seq<Block>, lo: nat, hi: nat)
    ensures KeepsAbove(0, m, m', bs, lo, hi) <==> KeepsPayloads(m, m', bs, lo, hi)
    ensures KeepsPayloads(m, m', bs, lo, hi) ==> KeepsAbove(k, m, m', bs, lo, hi)
  {
  }

  /** A header stored where the allocator stores headers keeps every payload in use. */
  lemma HeaderStoreKeeps(m: Memory, m': Memory, bs: seq<Block>, lo: nat, hi: nat, a: nat, h: Header)
    requires Tiles(bs, lo, hi) && HeaderPlace(bs, a) && HeaderWritten(m, m', a, h)
    ensures KeepsPayloads(m, m', bs, lo, hi)
  {
    hide HeaderAt, Tiles, InUse, HeaderPlace;
    forall p | 0 <= p < |m| && (p < lo || hi <= p || InUse(bs, p)) ensures m'[p] == m[p] {
      HeaderMissesByte(bs, lo, hi, a, p);
    }
  }

  lemma LowStoreKeeps(k: nat, m: Memory, m': Memory, bs: seq<Block>, lo: nat, hi: nat)
    requires SameOutside(m, m', NULL, k)
    ensures KeepsAbove(k, m, m', bs, lo, hi)
  {
  }

  /** What the frame says about the header at NULL. */
  lemma KeepsNullHeader(m: Memory, m': Memory, bs: seq<Block>, lo: nat, hi: nat)
    requires HEADER_SIZE <= lo && HEADER_SIZE <= |m|
    ensures KeepsPayloads(m, m', bs, lo, hi) ==> HEADER_SIZE <= |m'| && HeaderAt(m', NULL) == HeaderAt(m, NULL)
    ensures KeepsAbove(8, m, m', bs, lo, hi) ==>
      && HEADER_SIZE <= |m'| && HeaderAt(m', NULL).next == HeaderAt(m, NULL).next
      && HeaderAt(m', NULL).size == HeaderAt(m, NULL).size && HeaderAt(m', NULL).free == HeaderAt(m, NULL).free
  {
    if KeepsAbove(8, m, m', bs, lo, hi) {
      assert m'[8..16] == m[8..16] && m'[16..24] == m[16..24];
      if KeepsPayloads(m, m', bs, lo, hi) { assert m'[0..8] == m[0..8]; }
    }
  }

  predicate FreeAfter(bs: seq<Block>, i: nat) { i + 1 < |bs| && bs[i + 1].free }
  predicate FreeBefore(bs: seq<Block>, i: nat) { 0 < i <= |bs| && bs[i - 1].free }

  // ---------------------------------------------------------------- the start

  /** heap_init sets up one free block, which ends 480 bytes past the end of the region it was given. */
  lemma HeapInitOvershoots(m: Memory, start: nat, size: nat)
    requires 2 * HEADER_SIZE <= size && HeapStart(start) + size <= |m| + HEADER_SIZE && HeapStart(start) + size < U64
    ensures var bs, r := [Block(start + 512, size - 32, true)], HeapInit(m, start, size);
      && r.Done? && Setting(r.value, bs, HeapStart(start), Limit(start, size)) && (Quiet(m) ==> Quiet(r.value))
      && bs[0].End() == start + size + 480
  {
    hide HeaderAt, SetPrevious, SetNext, SetSize, SetFree, HeaderWritten;
    var hdr := HeapStart(start);
    var h0 := HeaderAt(m, hdr).(free := true);
    var m1 := SetFree(m, hdr, true);
    WrittenHere(m, m1, hdr, h0);
    var h1 := h0.(size := size - HEADER_SIZE);
    var m2 := SetSize(m1, hdr, h1.size);
    WrittenTwice(m, m1, m2, hdr, h0, h1);
    WrittenHere(m, m2, hdr, h1);
    var h2 := h1.(previous := NULL);
    var m3 := SetPrevious(m2, hdr, NULL);
    WrittenTwice(m, m2, m3, hdr, h1, h2);
    WrittenHere(m, m3, hdr, h2);
    var m4 := SetNext(m3, hdr, NULL);
    WrittenTwice(m, m3, m4, hdr, h2, h2.(next := NULL));
    WrittenReads(m, m4, hdr, h2.(next := NULL), NULL);
  }
}
