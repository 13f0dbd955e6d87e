/**
 Runs of the heap allocator as its text reads: the calls on which it agrees with its documentation, and
 what any sequence of them leaves behind.
 */
module HeapAsWrittenRuns {
  import opened Arithmetic
  import opened Bytes
  import opened Blocks
  import opened Headers
  import opened HeapAllocator
  import opened HeapAsWritten
  import opened HeapAsWrittenSearch
  import opened HeapAsWrittenAlloc
  import opened HeapAsWrittenFree

  /** The calls of the allocator, and a client's store of one byte inside an object. */
  datatype Call =
    | MallocCall(request: nat)
    | CallocCall(count: nat, size: nat)
    | FreeCall(ptr: nat)
    | WriteCall(ptr: nat, offset: nat, value: bv8)

  /** The client's store goes to address p. */
  predicate Stores(call: Call, p: int) { call.WriteCall? && call.ptr + call.offset == p }

  ghost predicate StoredTo(calls: seq<Call>, p: int) {
    exists c :: c in calls && Stores(c, p)
  }

  predicate Admissible(call: Call) {
    match call
    case MallocCall(n) => n < U64
    case CallocCall(_, _) => true
    case FreeCall(p) => HEADER_SIZE <= p
    case WriteCall(p, _, _) => HEADER_SIZE <= p
  }

  /** The text's answer: memory and pointer, NULL when there is none. */
  function Perform(m: Memory, lo: nat, hi: nat, call: Call, turns: nat): Run<(Memory, nat)>
    requires Admissible(call)
  {
    match call
    case MallocCall(n) => Malloc(m, lo, hi, n, turns)
    case CallocCall(count, size) => Calloc(m, lo, hi, count, size, turns)
    case FreeCall(p) => var m' :- DeleteBlock(m, p - HEADER_SIZE, hi, turns); Done((m', NULL))
    case WriteCall(p, offset, v) => if p + offset < |m| then Done((m[p + offset := v], NULL)) else Fault
  }

  function PerformAll(m: Memory, lo: nat, hi: nat, calls: seq<Call>, turns: nat): Run<(Memory, seq<nat>)>
    requires forall c :: c in calls ==> Admissible(c)
    decreases calls
  {
    if |calls| == 0 then Done((m, []))
    else
      var r :- Perform(m, lo, hi, calls[0], turns);
      var rest :- PerformAll(r.0, lo, hi, calls[1..], turns);
      Done((rest.0, [r.1] + rest.1))
  }

  // ---------------------------------------------------------------- smooth calls

  /** far: the link found at NULL is past the heap, so that a search that finds nothing ends. */
  predicate SmoothRequest(bs: seq<Block>, request: nat, far: bool)
    requires request < U64
  {
    var need := AlignedSize(request);
    var i := FirstFit(bs, need);
    if i < |bs| then request < ROUNDING_LIMIT && need + HEADER_SIZE <= bs[i].size else far
  }

  /** The calls on which text and documentation agree, as far as blocks, pointers and payloads go. */
  predicate Smooth(bs: seq<Block>, call: Call, far: bool) {
    match call
    case MallocCall(n) => n < U64 && SmoothRequest(bs, n, far)
    case CallocCall(count, size) =>
      var total := count * size % U64;
      SmoothRequest(bs, total, far) && (count * size < U64 || FirstFit(bs, AlignedSize(total)) == |bs|)
    case FreeCall(p) =>
      var i := IndexOf(bs, p - HEADER_SIZE);
      i < |bs| && !bs[i].free && !FreeAfter(bs, i) && !FreeBefore(bs, i)
    case WriteCall(p, offset, _) =>
      var i := IndexOf(bs, p - HEADER_SIZE);
      i < |bs| && !bs[i].free && p + offset < bs[i].End()
  }

  /** The documented answer to such a call. */
  function Documented(bs: seq<Block>, call: Call): (seq<Block>, nat) {
    match call
    case MallocCall(n) => if n < U64 then MallocSpec(bs, n) else (bs, NULL)
    case CallocCall(count, size) => CallocSpec(bs, count, size)
    case FreeCall(p) =>
      var i := IndexOf(bs, p - HEADER_SIZE);
      (if i < |bs| then Release(bs, i) else bs, NULL)
    case WriteCall(_, _, _) => (bs, NULL)
  }

  predicate SmoothRun(bs: seq<Block>, calls: seq<Call>, far: bool)
    decreases calls
  {
    |calls| == 0 || (Smooth(bs, calls[0], far) && SmoothRun(Documented(bs, calls[0]).0, calls[1..], far))
  }

  function DocumentedRun(bs: seq<Block>, calls: seq<Call>): (seq<Block>, seq<nat>)
    decreases calls
  {
    if |calls| == 0 then (bs, [])
    else
      var (bs1, p) := Documented(bs, calls[0]);
      var (bs2, ps) := DocumentedRun(bs1, calls[1..]);
      (bs2, [p] + ps)
  }

  // ---------------------------------------------------------------- one call

  lemma OutOfMemoryAgrees(m: Memory, bs: seq<Block>, lo: nat, hi: nat, request: nat, turns: nat)
    requires Setting(m, bs, lo, hi) && Quiet(m) && hi <= HeaderAt(m, NULL).next && |bs| <= turns
    requires request < U64 && FirstFit(bs, AlignedSize(request)) == |bs|
    ensures Malloc(m, lo, hi, request, turns) == Done((m, NULL)) && MallocSpec(bs, request) == (bs, NULL)
  {
    hide HeaderAt, Malloc, GetFreeBlock, Linked, Tiles, Coalesced;
    var need, hops: seq<nat> := AlignedSize(request), [NULL];
    assert LinkPath(m, hops, need, hi) && hi <= Onward(m, hops);
    assert Escapes(m, need, hi, turns - |bs|);
    NullExactly(m, bs, lo, hi, need, turns);
    MallocAfterSearch(m, bs, lo, hi, request, turns);
    MallocSpecCases(bs, request);
  }

  lemma NothingChanged(m: Memory, bs: seq<Block>, lo: nat, hi: nat)
    requires Setting(m, bs, lo, hi)
    ensures AlmostAsDocumented(m, Done((m, NULL)), bs, (bs, NULL), lo, hi)
  {
  }

  lemma SmoothMalloc(m: Memory, bs: seq<Block>, lo: nat, hi: nat, n: nat, turns: nat)
    requires Setting(m, bs, lo, hi) && Quiet(m) && |bs| <= turns && n < U64
    requires SmoothRequest(bs, n, hi <= HeaderAt(m, NULL).next)
    ensures var r := Malloc(m, lo, hi, n, turns); AlmostAsDocumented(m, r, bs, MallocSpec(bs, n), lo, hi)
  {
    hide HeaderAt, Malloc, Setting, Quiet, AlmostAsDocumented, MallocSpec;
    if FirstFit(bs, AlignedSize(n)) < |bs| {
      MallocKeeps(m, bs, lo, hi, n, turns);
    } else {
      OutOfMemoryAgrees(m, bs, lo, hi, n, turns);
      NothingChanged(m, bs, lo, hi);
    }
  }

  lemma SmoothIsCalloc(bs: seq<Block>, count: nat, size: nat, far: bool)
    requires Smooth(bs, CallocCall(count, size), far)
    ensures SmoothRequest(bs, count * size % U64, far)
    ensures U64 <= count * size ==> FirstFit(bs, AlignedSize(count * size % U64)) == |bs| && far
  {
  }

  lemma SmoothCalloc(m: Memory, bs: seq<Block>, lo: nat, hi: nat, count: nat, size: nat, turns: nat)
    requires Setting(m, bs, lo, hi) && Quiet(m) && |bs| <= turns
    requires Smooth(bs, CallocCall(count, size), hi <= HeaderAt(m, NULL).next)
    ensures var r := Calloc(m, lo, hi, count, size, turns);
      && AlmostAsDocumented(m, r, bs, CallocSpec(bs, count, size), lo, hi)
      && (r.value.1 != NULL ==> Zeroed(r.value.0, r.value.1, count * size))
  {
    SmoothIsCalloc(bs, count, size, hi <= HeaderAt(m, NULL).next);
    hide HeaderAt, Malloc, Setting, Quiet, MallocSpec, Zeroed, KeepsAbove, SmoothRequest, Smooth, Linked;
    var total := count * size % U64;
    if count * size < U64 {
      SmallMod(count * size, U64);
      SmoothMalloc(m, bs, lo, hi, total, turns);
      CallocFollowsMalloc(m, bs, lo, hi, count, size, turns);
    } else {
      OutOfMemoryAgrees(m, bs, lo, hi, total, turns);
      NothingChanged(m, bs, lo, hi);
    }
  }

  lemma SmoothFree(m: Memory, bs: seq<Block>, lo: nat, hi: nat, p: nat, turns: nat)
    requires Setting(m, bs, lo, hi) && Quiet(m) && 2 <= turns && HEADER_SIZE <= p && Smooth(bs, FreeCall(p), false)
    ensures var r := Perform(m, lo, hi, FreeCall(p), turns);
      AlmostAsDocumented(m, r, bs, Documented(bs, FreeCall(p)), lo, hi)
  {
    hide HeaderAt, Setting, Quiet, Release, Linked, KeepsPayloads, KeepsAbove, DeleteBlock;
    var i := IndexOf(bs, p - HEADER_SIZE);
    FreeListExact(m, bs, lo, hi, i, turns);
    KeepsFromZero(8, m, DeleteBlock(m, p - HEADER_SIZE, hi, turns).value, bs, lo, hi);
  }

  lemma AllocatedLength(bs: seq<Block>, n: nat)
    requires Coalesced(bs) && n < U64
    ensures |MallocSpec(bs, n).0| <= |bs| + 1
  {
    var i := FirstFit(bs, AlignedSize(n));
    if i < |bs| { AllocatePositions(bs, i, AlignedSize(n)); }
  }

  lemma DocumentedLength(bs: seq<Block>, lo: nat, hi: nat, call: Call, far: bool)
    requires Tiles(bs, lo, hi) && Coalesced(bs) && Smooth(bs, call, far)
    ensures |Documented(bs, call).0| <= |bs| + 1
  {
    hide Release, Allocate;
    match call
    case MallocCall(n) => AllocatedLength(bs, n);
    case CallocCall(count, size) => if count * size < U64 { AllocatedLength(bs, count * size); }
    case FreeCall(p) => ReleaseHead(bs, IndexOf(bs, p - HEADER_SIZE), lo, hi);
    case WriteCall(_, _, _) =>
  }

  lemma SmoothIsRequest(bs: seq<Block>, n: nat, far: bool)
    requires Smooth(bs, MallocCall(n), far)
    ensures n < U64 && SmoothRequest(bs, n, far)
  {
  }

  lemma SmoothIsFree(bs: seq<Block>, p: nat, far: bool)
    requires Smooth(bs, FreeCall(p), far)
    ensures Smooth(bs, FreeCall(p), false)
  {
  }

  lemma SmoothIsWrite(bs: seq<Block>, p: nat, offset: nat, v: bv8, far: bool)
    requires Smooth(bs, WriteCall(p, offset, v), far)
    ensures Smooth(bs, WriteCall(p, offset, v), false)
  {
  }

  /** The bytes a call leaves alone: outside the heap from address 8 up, and in objects, except for the byte
      the client stores. */
  ghost predicate CallFrame(m: Memory, m': Memory, bs: seq<Block>, lo: nat, hi: nat, call: Call) {
    && |m| == |m'| && (forall p :: 8 <= p < |m| && (p < lo || hi <= p) ==> m'[p] == m[p])
    && (forall p :: 8 <= p < |m| && InUse(bs, p) && !Stores(call, p) ==> m'[p] == m[p])
  }

  /** What one call leaves behind. */
  ghost predicate Agrees(m: Memory, r: Run<(Memory, nat)>, bs: seq<Block>, lo: nat, hi: nat, call: Call) {
    && r.Done? && r.value.1 == Documented(bs, call).1 && Setting(r.value.0, Documented(bs, call).0, lo, hi)
    && CallFrame(m, r.value.0, bs, lo, hi, call)
  }

  lemma AlmostAgrees(m: Memory, r: Run<(Memory, nat)>, bs: seq<Block>, lo: nat, hi: nat, call: Call)
    requires AlmostAsDocumented(m, r, bs, Documented(bs, call), lo, hi)
    ensures Agrees(m, r, bs, lo, hi, call)
  {
  }

  /** A client's store inside an object leaves the list. */
  lemma SmoothWrite(m: Memory, bs: seq<Block>, lo: nat, hi: nat, p: nat, offset: nat, v: bv8, turns: nat)
    requires Setting(m, bs, lo, hi) && HEADER_SIZE <= p && Smooth(bs, WriteCall(p, offset, v), false)
    ensures Agrees(m, Perform(m, lo, hi, WriteCall(p, offset, v), turns), bs, lo, hi, WriteCall(p, offset, v))
  {
    hide HeaderAt, Linked, Coalesced, Tiles, InUse;
    var i := IndexOf(bs, p - HEADER_SIZE);
    TilesAbove(bs, lo, hi, i);
    TilesBelow(bs, lo, hi, i);
    PayloadStore(m, m[p + offset := v], bs, i, p + offset, 1, lo, hi);
  }

  lemma AgreesAtNull(m: Memory, r: Run<(Memory, nat)>, bs: seq<Block>, lo: nat, hi: nat, call: Call)
    requires Agrees(m, r, bs, lo, hi, call) && HEADER_SIZE <= lo && HEADER_SIZE <= |m|
    ensures r.Done? && HEADER_SIZE <= |r.value.0|
    ensures HeaderAt(r.value.0, NULL).next == HeaderAt(m, NULL).next
    ensures HeaderAt(r.value.0, NULL).free == HeaderAt(m, NULL).free
  {
    assert r.value.0[8..16] == m[8..16];
  }

  /** What one smooth call keeps. */
  lemma SmoothCall(m: Memory, bs: seq<Block>, lo: nat, hi: nat, call: Call, turns: nat)
    requires Setting(m, bs, lo, hi) && Quiet(m) && |bs| <= turns && 2 <= turns
    requires Admissible(call) && Smooth(bs, call, hi <= HeaderAt(m, NULL).next)
    ensures var r := Perform(m, lo, hi, call, turns);
      && Agrees(m, r, bs, lo, hi, call) && |Documented(bs, call).0| <= |bs| + 1
      && Quiet(r.value.0) && HeaderAt(r.value.0, NULL).next == HeaderAt(m, NULL).next
  {
    hide HeaderAt, Malloc, Calloc, DeleteBlock, MallocSpec, CallocSpec, Release, Linked, KeepsAbove, Smooth,
      AlmostAsDocumented, Agrees;
    var far, r := hi <= HeaderAt(m, NULL).next, Perform(m, lo, hi, call, turns);
    DocumentedLength(bs, lo, hi, call, far);
    match call {
      case MallocCall(n) =>
        SmoothIsRequest(bs, n, far);
        SmoothMalloc(m, bs, lo, hi, n, turns);
        AlmostAgrees(m, r, bs, lo, hi, call);
      case CallocCall(count, size) =>
        SmoothCalloc(m, bs, lo, hi, count, size, turns);
        AlmostAgrees(m, r, bs, lo, hi, call);
      case FreeCall(p) =>
        SmoothIsFree(bs, p, far);
        SmoothFree(m, bs, lo, hi, p, turns);
        AlmostAgrees(m, r, bs, lo, hi, call);
      case WriteCall(p, offset, v) =>
        SmoothIsWrite(bs, p, offset, v, far);
        SmoothWrite(m, bs, lo, hi, p, offset, v, turns);
    }
    AgreesAtNull(m, r, bs, lo, hi, call);
  }

  // ---------------------------------------------------------------- runs

  /** Every run of smooth calls and client stores leaves memory holding exactly the documented heap, hands out
      the documented pointers, and touches nothing outside the heap but the first eight bytes of memory. */
  lemma {:induction false} SmoothRunsAgree(m: Memory, bs: seq<Block>, lo: nat, hi: nat, calls: seq<Call>, turns: nat)
    requires Setting(m, bs, lo, hi) && Quiet(m) && (forall c :: c in calls ==> Admissible(c))
    requires SmoothRun(bs, calls, hi <= HeaderAt(m, NULL).next) && |bs| + |calls| <= turns && 2 <= turns
    ensures var r, doc := PerformAll(m, lo, hi, calls, turns), DocumentedRun(bs, calls);
      && r.Done? && r.value.1 == doc.1 && Setting(r.value.0, doc.0, lo, hi) && Quiet(r.value.0)
      && |r.value.0| == |m| && forall p :: 8 <= p < |m| && (p < lo || hi <= p) ==> r.value.0[p] == m[p]
    decreases calls
  {
    hide Setting, Perform, Quiet, HeaderAt, Smooth, Documented;
    if 0 < |calls| {
      SmoothCall(m, bs, lo, hi, calls[0], turns);
      var m1 := Perform(m, lo, hi, calls[0], turns).value.0;
      SmoothRunsAgree(m1, Documented(bs, calls[0]).0, lo, hi, calls[1..], turns);
    }
  }

  lemma MallocStaysInUse(bs: seq<Block>, n: nat, b: Block)
    requires Coalesced(bs) && n < U64 && b in Allocated(bs)
    ensures b in Allocated(MallocSpec(bs, n).0)
  {
    var i := FirstFit(bs, AlignedSize(n));
    if i < |bs| { AllocateAllocated(bs, i, AlignedSize(n)); }
  }

  /** A block in use stays in use through a call that does not free it. */
  lemma StaysInUse(bs: seq<Block>, lo: nat, hi: nat, call: Call, b: Block)
    requires Tiles(bs, lo, hi) && Coalesced(bs) && b in Allocated(bs) && call != FreeCall(b.Payload())
    requires Admissible(call)
    ensures b in Allocated(Documented(bs, call).0)
  {
    hide Release, Allocate, Tiles, Coalesced, Allocated;
    match call
    case MallocCall(n) => MallocStaysInUse(bs, n, b);
    case CallocCall(count, size) => if count * size < U64 { MallocStaysInUse(bs, count * size, b); }
    case FreeCall(p) =>
      var i := IndexOf(bs, p - HEADER_SIZE);
      if i < |bs| { ReleaseKeeps(bs, i, lo, hi); }
    case WriteCall(_, _, _) =>
  }

  lemma InUseBytes(bs: seq<Block>, lo: nat, hi: nat, b: Block)
    requires Tiles(bs, lo, hi) && b in Allocated(bs)
    ensures lo <= b.addr && b.End() <= hi && forall p :: b.Payload() <= p < b.End() ==> InUse(bs, p)
  {
    TilesSpread(bs, lo, hi);
  }

  lemma SettingShape(m: Memory, bs: seq<Block>, lo: nat, hi: nat)
    requires Setting(m, bs, lo, hi)
    ensures Tiles(bs, lo, hi) && Coalesced(bs) && HEADER_SIZE <= lo && hi <= |m|
  {
  }

  /** In every such run, an object in use at the start and not freed keeps its block, and every byte to which
      the client does not store. */
  lemma {:induction false} SmoothRunsKeepObjects(m: Memory, bs: seq<Block>, lo: nat, hi: nat, calls: seq<Call>,
                                                 turns: nat, b: Block)
    requires Setting(m, bs, lo, hi) && Quiet(m) && (forall c :: c in calls ==> Admissible(c))
    requires SmoothRun(bs, calls, hi <= HeaderAt(m, NULL).next) && |bs| + |calls| <= turns && 2 <= turns
    requires b in Allocated(bs) && FreeCall(b.Payload()) !in calls
    ensures var r, doc := PerformAll(m, lo, hi, calls, turns), DocumentedRun(bs, calls);
      && r.Done? && b in Allocated(doc.0) && b.End() <= |m| == |r.value.0|
      && forall p :: b.Payload() <= p < b.End() && !StoredTo(calls, p) ==> r.value.0[p] == m[p]
    decreases calls
  {
    hide Setting, Perform, Quiet, HeaderAt, Smooth, Documented, Allocated, Tiles, Coalesced, InUse, Stores;
    SettingShape(m, bs, lo, hi);
    InUseBytes(bs, lo, hi, b);
    if 0 < |calls| {
      SmoothCall(m, bs, lo, hi, calls[0], turns);
      var m1, bs1 := Perform(m, lo, hi, calls[0], turns).value.0, Documented(bs, calls[0]).0;
      StaysInUse(bs, lo, hi, calls[0], b);
      SmoothRunsKeepObjects(m1, bs1, lo, hi, calls[1..], turns, b);
      assert forall p: int :: Stores(calls[0], p) || StoredTo(calls[1..], p) ==> StoredTo(calls, p);
    }
  }

  /** A block that malloc split off can be freed once the next request has taken its remainder. */
  lemma FreedAfterNextSplit(lo: nat, hi: nat, far: bool)
    requires lo + 320 <= hi
    ensures SmoothRun([Block(lo, hi - lo, true)], [MallocCall(0), MallocCall(0), FreeCall(lo + HEADER_SIZE)], far)
  {
    var bs0 := [Block(lo, hi - lo, true)];
    var bs1 := [Block(lo, 64, false), Block(lo + 64, hi - lo - 64, true)];
    var bs2 := [Block(lo, 64, false), Block(lo + 64, 64, false), Block(lo + 128, hi - lo - 128, true)];
    var calls := [MallocCall(0), MallocCall(0), FreeCall(lo + HEADER_SIZE)];
    assert AlignedSize(0) == 64;
    assert FirstFit(bs0, 64) == 0 && Documented(bs0, calls[0]).0 == bs1;
    assert FirstFit(bs1, 64) == 1 && Documented(bs1, calls[1]).0 == bs2;
    assert IndexOf(bs2, lo) == 0 && Smooth(bs2, calls[2], far);
    assert SmoothRun(Documented(bs2, calls[2]).0, calls[3..], far);
    assert SmoothRun(bs2, calls[2..], far);
    assert calls[1..][1..] == calls[2..] && SmoothRun(bs1, calls[1..], far);
  }
}
