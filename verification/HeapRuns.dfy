/**
 Whole runs of the heap: any sequence of malloc, calloc, free of live pointers, and client writes
 inside live objects.
 */
module HeapRuns {
  import opened Arithmetic
  import opened Bytes
  import opened Blocks
  import opened Headers
  import opened HeapAllocator

  datatype Op =
    | Malloc(request: nat)
    | Calloc(count: nat, size: nat)
    | Free(ptr: nat)
    | Write(ptr: nat, offset: nat, value: bv8)

  /** Memory, the blocks it encodes, and the size each live pointer was requested with. */
  datatype State = State(mem: Memory, blocks: seq<Block>, live: map<nat, nat>)

  /** The live pointers are exactly the payloads of the blocks in use, each with room for its request. */
  ghost predicate LiveMatches(used: set<Block>, live: map<nat, nat>) {
    && (forall b :: b in used ==> b.Payload() in live && b.Payload() + live[b.Payload()] <= b.End())
    && (forall p :: p in live ==> exists b :: b in used && b.Payload() == p)
  }

  ghost predicate Invariant(s: State, lo: nat, hi: nat) {
    && HEADER_SIZE <= lo && hi <= |s.mem|
    && Tiles(s.blocks, lo, hi) && Coalesced(s.blocks)
    && (lo % HEADER_SIZE == 0 ==> HeadersAligned(s.blocks))
    && Linked(s.mem, s.blocks)
    && LiveMatches(Allocated(s.blocks), s.live)
  }

  /** After a successful request for n bytes at p, p is live with that size. */
  function Granting(live: map<nat, nat>, p: nat, n: nat): map<nat, nat> {
    if p == NULL then live else live[p := n]
  }

  /** What one call of the allocator, or one client write, may do. */
  ghost predicate Step(s: State, op: Op, s': State, lo: nat, hi: nat) {
    match op
    case Malloc(n) =>
      && n < U64
      && var (bs, p) := MallocSpec(s.blocks, n);
      && s'.blocks == bs && s'.live == Granting(s.live, p, n)
      && Linked(s'.mem, bs) && KeepsPayloads(s.mem, s'.mem, s.blocks, lo, hi)
    case Calloc(count, size) =>
      var (bs, p) := CallocSpec(s.blocks, count, size);
      && s'.blocks == bs && s'.live == Granting(s.live, p, count * size)
      && Linked(s'.mem, bs) && KeepsPayloads(s.mem, s'.mem, s.blocks, lo, hi)
      && (p != NULL ==> forall q :: p <= q < p + count * size && q < |s'.mem| ==> s'.mem[q] == 0)
    case Free(p) =>
      && p in s.live
      && var i := IndexOf(s.blocks, p - HEADER_SIZE);
      && i < |s.blocks| && s'.blocks == Release(s.blocks, i) && s'.live == s.live - {p}
      && Linked(s'.mem, s'.blocks) && KeepsPayloads(s.mem, s'.mem, s.blocks, lo, hi)
    case Write(p, offset, v) =>
      && p in s.live && offset < s.live[p] && p + offset < |s.mem|
      && s' == s.(mem := s.mem[p + offset := v])
  }

  // ---------------------------------------------------------------- one step

  lemma DistinctHeaders(bs: seq<Block>, lo: nat, hi: nat, b: Block, c: Block)
    requires Tiles(bs, lo, hi) && b in bs && c in bs
    ensures b == c || b.End() <= c.addr || c.End() <= b.addr
    ensures HEADER_SIZE <= b.size && lo <= b.addr && b.End() <= hi
  {
    TilesSpread(bs, lo, hi);
  }

  /** The block behind a live pointer. */
  lemma LiveBlock(bs: seq<Block>, live: map<nat, nat>, lo: nat, hi: nat, p: nat)
    requires Tiles(bs, lo, hi) && LiveMatches(Allocated(bs), live) && p in live
    ensures var i := IndexOf(bs, p - HEADER_SIZE);
      && i < |bs| && !bs[i].free && bs[i].Payload() == p && p + live[p] <= bs[i].End() <= hi
  {
    var b :| b in Allocated(bs) && b.Payload() == p;
    var k :| 0 <= k < |bs| && bs[k] == b;
    var i := IndexOf(bs, p - HEADER_SIZE);
    DistinctHeaders(bs, lo, hi, b, bs[i]);
  }

  lemma AddLive(used: set<Block>, live: map<nat, nat>, b: Block, n: nat)
    requires LiveMatches(used, live) && b.Payload() + n <= b.End()
    requires forall c :: c in used ==> c.Payload() != b.Payload()
    ensures b.Payload() !in live && LiveMatches(used + {b}, live[b.Payload() := n])
  {
  }

  /** No block in use has the payload of a free one. */
  lemma FreeIsUnused(bs: seq<Block>, lo: nat, hi: nat, i: nat)
    requires Tiles(bs, lo, hi) && i < |bs| && bs[i].free
    ensures forall b :: b in Allocated(bs) ==> b.Payload() != bs[i].Payload()
  {
    forall b | b in Allocated(bs) ensures b.Payload() != bs[i].Payload() {
      DistinctHeaders(bs, lo, hi, b, bs[i]);
    }
  }

  lemma GrantKeepsLive(bs: seq<Block>, live: map<nat, nat>, n: nat, lo: nat, hi: nat)
    requires Tiles(bs, lo, hi) && Coalesced(bs) && LiveMatches(Allocated(bs), live) && n < U64
    ensures var (cs, p) := MallocSpec(bs, n);
      LiveMatches(Allocated(cs), Granting(live, p, n)) && (p != NULL ==> p !in live && lo < p && p + n <= hi)
  {
    hide Allocate, Allocated, Tiles, Coalesced, LiveMatches;
    var need := AlignedSize(n);
    var i := FirstFit(bs, need);
    if n < ROUNDING_LIMIT && i < |bs| {
      AlignedSizeGrowth(n);
      AllocateAllocated(bs, i, need);
      GrantedRoom(bs, i, n, lo, hi);
      FreeIsUnused(bs, lo, hi, i);
      AddLive(Allocated(bs), live, Granted(bs, i, need), n);
      TilesBelow(bs, lo, hi, i);
    }
  }

  lemma RemoveLive(used: set<Block>, live: map<nat, nat>, b: Block)
    requires LiveMatches(used, live) && b in used
    requires forall c :: c in used && c != b ==> c.Payload() != b.Payload()
    ensures LiveMatches(used - {b}, live - {b.Payload()})
  {
  }

  lemma ReleaseKeepsLive(bs: seq<Block>, live: map<nat, nat>, p: nat, lo: nat, hi: nat)
    requires Tiles(bs, lo, hi) && LiveMatches(Allocated(bs), live) && p in live
    ensures IndexOf(bs, p - HEADER_SIZE) < |bs|
    ensures LiveMatches(Allocated(Release(bs, IndexOf(bs, p - HEADER_SIZE))), live - {p})
  {
    hide Release, LiveMatches, Tiles;
    LiveBlock(bs, live, lo, hi, p);
    var i := IndexOf(bs, p - HEADER_SIZE);
    ReleaseKeeps(bs, i, lo, hi);
    forall b | b in Allocated(bs) && b != bs[i] ensures b.Payload() != p {
      DistinctHeaders(bs, lo, hi, b, bs[i]);
    }
    RemoveLive(Allocated(bs), live, bs[i]);
  }

  lemma MallocKeeps(bs: seq<Block>, n: nat, lo: nat, hi: nat)
    requires Tiles(bs, lo, hi) && Coalesced(bs) && n < U64
    ensures var cs := MallocSpec(bs, n).0;
      Tiles(cs, lo, hi) && Coalesced(cs) && (HeadersAligned(bs) ==> HeadersAligned(cs))
  {
    var need := AlignedSize(n);
    var i := FirstFit(bs, need);
    if n < ROUNDING_LIMIT && i < |bs| {
      AlignedSizeGrowth(n);
      AllocateKeeps(bs, i, need, lo, hi);
      if HeadersAligned(bs) { AllocateKeepsAlignment(bs, i, need); }
    }
  }

  lemma SameLength(m: Memory, m': Memory, bs: seq<Block>, lo: nat, hi: nat)
    requires KeepsPayloads(m, m', bs, lo, hi)
    ensures |m'| == |m|
  {
  }

  lemma StepKeepsInvariant(s: State, op: Op, s': State, lo: nat, hi: nat)
    requires Invariant(s, lo, hi) && Step(s, op, s', lo, hi)
    ensures Invariant(s', lo, hi)
  {
    hide Linked, KeepsPayloads, Tiles, Coalesced, HeadersAligned, LiveMatches, MallocSpec, Release;
    match op
    case Malloc(n) =>
      MallocKeeps(s.blocks, n, lo, hi);
      GrantKeepsLive(s.blocks, s.live, n, lo, hi);
      SameLength(s.mem, s'.mem, s.blocks, lo, hi);
    case Calloc(count, size) =>
      if count * size < U64 {
        MallocKeeps(s.blocks, count * size, lo, hi);
        GrantKeepsLive(s.blocks, s.live, count * size, lo, hi);
      }
      SameLength(s.mem, s'.mem, s.blocks, lo, hi);
    case Free(p) =>
      LiveBlock(s.blocks, s.live, lo, hi, p);
      var i := IndexOf(s.blocks, p - HEADER_SIZE);
      ReleaseKeeps(s.blocks, i, lo, hi);
      ReleaseIsCoalesce(s.blocks, i);
      ReleaseKeepsLive(s.blocks, s.live, p, lo, hi);
      SameLength(s.mem, s'.mem, s.blocks, lo, hi);
    case Write(p, offset, v) =>
      LiveBlock(s.blocks, s.live, lo, hi, p);
      PayloadStore(s.mem, s'.mem, s.blocks, IndexOf(s.blocks, p - HEADER_SIZE), p + offset, 1, lo, hi);
  }

  // ---------------------------------------------------------------- what the invariant means

  /** Live objects lie inside the heap, apart from every header and from each other. */
  lemma ObjectsNeverCollide(s: State, lo: nat, hi: nat)
    requires Invariant(s, lo, hi)
    ensures forall p :: p in s.live ==> lo + HEADER_SIZE <= p && p + s.live[p] <= hi
    ensures forall p, b :: p in s.live && b in s.blocks ==> p + s.live[p] <= b.addr || b.Payload() <= p
    ensures forall p, q :: p in s.live && q in s.live && p != q ==> p + s.live[p] <= q || q + s.live[q] <= p
    ensures TotalSize(s.blocks) == hi - lo
  {
    hide Linked, Coalesced, HeadersAligned;
    forall p | p in s.live ensures lo + HEADER_SIZE <= p && p + s.live[p] <= hi {
      LiveBlock(s.blocks, s.live, lo, hi, p);
      TilesBelow(s.blocks, lo, hi, IndexOf(s.blocks, p - HEADER_SIZE));
    }
    forall p, b | p in s.live && b in s.blocks ensures p + s.live[p] <= b.addr || b.Payload() <= p {
      LiveBlock(s.blocks, s.live, lo, hi, p);
      DistinctHeaders(s.blocks, lo, hi, b, s.blocks[IndexOf(s.blocks, p - HEADER_SIZE)]);
    }
    forall p, q | p in s.live && q in s.live && p != q ensures p + s.live[p] <= q || q + s.live[q] <= p {
      LiveBlock(s.blocks, s.live, lo, hi, p);
      LiveBlock(s.blocks, s.live, lo, hi, q);
      var i, j := IndexOf(s.blocks, p - HEADER_SIZE), IndexOf(s.blocks, q - HEADER_SIZE);
      DistinctHeaders(s.blocks, lo, hi, s.blocks[i], s.blocks[j]);
    }
    TilesTotalSize(s.blocks, lo, hi);
  }

  /** A heap in which nothing is live is the single block it started as. */
  lemma NothingLiveMeansInitial(bs: seq<Block>, live: map<nat, nat>, lo: nat, hi: nat)
    requires Tiles(bs, lo, hi) && Coalesced(bs) && LiveMatches(Allocated(bs), live) && live == map[] && lo <= hi
    ensures bs == [Block(lo, hi - lo, true)]
  {
    assert |bs| <= 1 || !(bs[0].free && bs[1].free);
    assert forall b :: b in bs ==> b.free || b in Allocated(bs);
  }

  function FreeAll(bs: seq<Block>, order: seq<nat>): seq<Block>
    decreases order
  {
    if |order| == 0 then bs
    else
      var i := IndexOf(bs, order[0] - HEADER_SIZE);
      FreeAll(if i < |bs| then Release(bs, i) else bs, order[1..])
  }

  /** order lists the live pointers, each once. */
  ghost predicate Lists(order: seq<nat>, live: map<nat, nat>) {
    && (forall p :: p in live <==> p in order)
    && (forall i, j :: 0 <= i < j < |order| ==> order[i] != order[j])
  }

  lemma ListsRest(order: seq<nat>, live: map<nat, nat>)
    requires Lists(order, live) && |order| > 0
    ensures order[0] in live && Lists(order[1..], live - {order[0]})
  {
    var rest := order[1..];
    assert forall i :: 0 <= i < |rest| ==> rest[i] == order[i + 1] != order[0];
    assert forall p :: p in order ==> p == order[0] || p in rest;
  }

  /** Releasing one live pointer. */
  lemma FreeOne(bs: seq<Block>, live: map<nat, nat>, p: nat, lo: nat, hi: nat)
    requires Tiles(bs, lo, hi) && Coalesced(bs) && LiveMatches(Allocated(bs), live) && p in live
    ensures var i := IndexOf(bs, p - HEADER_SIZE);
      && i < |bs| && Tiles(Release(bs, i), lo, hi) && Coalesced(Release(bs, i))
      && LiveMatches(Allocated(Release(bs, i)), live - {p})
  {
    hide Release, Tiles, Coalesced, LiveMatches, Allocated;
    LiveBlock(bs, live, lo, hi, p);
    var i := IndexOf(bs, p - HEADER_SIZE);
    ReleaseKeeps(bs, i, lo, hi);
    ReleaseIsCoalesce(bs, i);
    ReleaseKeepsLive(bs, live, p, lo, hi);
  }

  /** Freeing all live pointers, in whatever order, restores the initial heap. */
  lemma {:induction false} FreeInAnyOrder(bs: seq<Block>, live: map<nat, nat>, order: seq<nat>, lo: nat, hi: nat)
    requires Tiles(bs, lo, hi) && Coalesced(bs) && LiveMatches(Allocated(bs), live) && lo <= hi
    requires Lists(order, live)
    ensures FreeAll(bs, order) == [Block(lo, hi - lo, true)]
    decreases |order|
  {
    if |order| == 0 {
      NothingLiveMeansInitial(bs, live, lo, hi);
    } else {
      hide Release, Tiles, Coalesced, LiveMatches, Allocated, Lists;
      ListsRest(order, live);
      FreeOne(bs, live, order[0], lo, hi);
      FreeInAnyOrder(Release(bs, IndexOf(bs, order[0] - HEADER_SIZE)), live - {order[0]}, order[1..], lo, hi);
    }
  }

  // ---------------------------------------------------------------- runs

  ghost predicate IsRun(states: seq<State>, ops: seq<Op>, lo: nat, hi: nat) {
    && |states| == |ops| + 1
    && forall k :: 0 <= k < |ops| ==> Step(states[k], ops[k], states[k + 1], lo, hi)
  }

  /** Every state of every run keeps the invariant. */
  lemma {:induction false} RunKeepsInvariant(states: seq<State>, ops: seq<Op>, lo: nat, hi: nat, k: nat)
    requires IsRun(states, ops, lo, hi) && Invariant(states[0], lo, hi) && k <= |ops|
    ensures Invariant(states[k], lo, hi)
  {
    hide Invariant, Step;
    if 0 < k {
      RunKeepsInvariant(states, ops, lo, hi, k - 1);
      StepKeepsInvariant(states[k - 1], ops[k - 1], states[k], lo, hi);
    }
  }

  /** What heap_init leaves: one free block in memory, and no live pointer. */
  ghost predicate Initial(s: State, lo: nat, hi: nat) {
    && HEADER_SIZE <= lo && lo + HEADER_SIZE <= hi <= |s.mem|
    && s.blocks == [Block(lo, hi - lo, true)] && s.live == map[] && Linked(s.mem, s.blocks)
  }

  lemma InitialInvariant(s: State, lo: nat, hi: nat)
    requires Initial(s, lo, hi)
    ensures Invariant(s, lo, hi)
  {
    hide Linked;
    assert Allocated(s.blocks) == {};
  }

  /** Every state reachable from heap_init keeps the invariant; when nothing is live in it, the heap is
      the initial one again. */
  lemma ReachableFromHeapInit(states: seq<State>, ops: seq<Op>, lo: nat, hi: nat, k: nat)
    requires IsRun(states, ops, lo, hi) && Initial(states[0], lo, hi) && k <= |ops|
    ensures Invariant(states[k], lo, hi)
    ensures states[k].live == map[] ==> Initial(states[k], lo, hi)
  {
    hide Step;
    InitialInvariant(states[0], lo, hi);
    RunKeepsInvariant(states, ops, lo, hi, k);
    if states[k].live == map[] { NothingLiveMeansInitial(states[k].blocks, states[k].live, lo, hi); }
  }

  /** One step does not change a byte of an object live before and after it, unless it is that write. */
  lemma StepKeepsByte(s: State, op: Op, s': State, lo: nat, hi: nat, p: nat, offset: nat)
    requires Invariant(s, lo, hi) && Step(s, op, s', lo, hi)
    requires p in s.live && p in s'.live && offset < s.live[p]
    requires !(op.Write? && op.ptr == p && op.offset == offset)
    ensures p + offset < |s.mem| && p + offset < |s'.mem| && s'.mem[p + offset] == s.mem[p + offset]
    ensures s'.live[p] == s.live[p]
  {
    hide Linked, MallocSpec, Release, Tiles, Coalesced, HeadersAligned, LiveMatches, Allocated;
    LiveBlock(s.blocks, s.live, lo, hi, p);
    assert InUse(s.blocks, p + offset) by {
      assert s.blocks[IndexOf(s.blocks, p - HEADER_SIZE)] in s.blocks;
    }
    match op
    case Malloc(n) =>
      GrantKeepsLive(s.blocks, s.live, n, lo, hi);
    case Calloc(count, size) =>
      if count * size < U64 { GrantKeepsLive(s.blocks, s.live, count * size, lo, hi); }
    case Free(q) =>
    case Write(q, off, v) =>
      ObjectsNeverCollide(s, lo, hi);
  }

  lemma LiveInMemory(s: State, lo: nat, hi: nat, p: nat)
    requires Invariant(s, lo, hi) && p in s.live
    ensures p + s.live[p] <= |s.mem|
  {
    LiveBlock(s.blocks, s.live, lo, hi, p);
  }

  /** What a client stores stays: over any stretch of a run in which p is live and the byte is not
      written by its owner, it keeps its value, whatever else is allocated, freed or written. */
  lemma {:induction false} ClientDataSurvives(states: seq<State>, ops: seq<Op>, lo: nat, hi: nat,
                                              from: nat, to: nat, p: nat, offset: nat)
    requires IsRun(states, ops, lo, hi) && Invariant(states[0], lo, hi) && from <= to <= |ops|
    requires forall k :: from <= k <= to ==> p in states[k].live
    requires offset < states[from].live[p]
    requires forall k :: from <= k < to ==> !(ops[k].Write? && ops[k].ptr == p && ops[k].offset == offset)
    ensures p + offset < |states[from].mem| && p + offset < |states[to].mem|
    ensures states[to].mem[p + offset] == states[from].mem[p + offset] && states[to].live[p] == states[from].live[p]
    decreases |ops| - from
  {
    hide Invariant, Step;
    RunKeepsInvariant(states, ops, lo, hi, from);
    if from < to {
      StepKeepsByte(states[from], ops[from], states[from + 1], lo, hi, p, offset);
      ClientDataSurvives(states, ops, lo, hi, from + 1, to, p, offset);
    } else {
      LiveInMemory(states[from], lo, hi, p);
    }
  }

  // ---------------------------------------------------------------- the allocator makes such steps

  /** heap_init on real memory gives such an initial state. */
  method Start(ram: array<bv8>, at: nat, bytes: nat) returns (h: Heap, ghost s: State)
    requires HEADER_SIZE <= at && 2 * HEADER_SIZE <= bytes && at + bytes - HEADER_SIZE <= ram.Length < U64
    modifies ram
    ensures fresh(h) && h.ram == ram && h.Valid() && h.start == at && h.Limit() == at + bytes - HEADER_SIZE
    ensures s == State(ram[..], h.blocks, map[]) && Initial(s, h.start, h.Limit())
  {
    hide Linked;
    h := new Heap(ram);
    h.HeapInit(at, bytes);
    s := State(ram[..], h.blocks, map[]);
  }

  /** Performing one operation on the real heap is a step, provided the client's own obligations
      hold: it frees and writes only what is live. */
  method Perform(h: Heap, op: Op, ghost live: map<nat, nat>) returns (ghost s: State, ghost s': State)
    requires h.Valid() && Invariant(State(h.ram[..], h.blocks, live), h.start, h.Limit())
    requires op.Malloc? ==> op.request < U64
    requires op.Calloc? ==> op.count < U64 && op.size < U64
    requires op.Free? ==> op.ptr in live
    requires op.Write? ==> op.ptr in live && op.offset < live[op.ptr]
    modifies h.ram, h`blocks
    ensures h.Valid() && s == State(old(h.ram[..]), old(h.blocks), live)
    ensures s'.mem == h.ram[..] && s'.blocks == h.blocks
    ensures Step(s, op, s', h.start, h.Limit()) && Invariant(s', h.start, h.Limit())
  {
    hide Linked, KeepsPayloads, Tiles, Coalesced, HeadersAligned, LiveMatches, MallocSpec, Release;
    s := State(h.ram[..], h.blocks, live);
    match op
    case Malloc(n) =>
      var p := h.Malloc(n);
      s' := State(h.ram[..], h.blocks, Granting(live, p, n));
      StepKeepsInvariant(s, op, s', h.start, h.Limit());
    case Calloc(count, size) =>
      var p := h.Calloc(count, size);
      s' := State(h.ram[..], h.blocks, Granting(live, p, count * size));
      StepKeepsInvariant(s, op, s', h.start, h.Limit());
    case Free(p) =>
      LiveBlock(h.blocks, live, h.start, h.Limit(), p);
      var panicked := h.Free(p);
      s' := State(h.ram[..], h.blocks, live - {p});
      StepKeepsInvariant(s, op, s', h.start, h.Limit());
    case Write(p, offset, v) =>
      LiveInMemory(s, h.start, h.Limit(), p);
      h.ram[p + offset] := v;
      s' := State(h.ram[..], h.blocks, live);
      StepKeepsInvariant(s, op, s', h.start, h.Limit());
  }
}
