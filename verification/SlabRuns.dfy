/**
 Whole runs of the slab allocator, against a pool that knows only a set of indices.
 */
module SlabRuns {
  import opened Bytes
  import opened Bitmap
  import opened SlabLayout
  import opened Arithmetic
  import opened Slab

  datatype Op = Alloc | Free(mem: nat) | Write(mem: nat, value: bv8)

  // ---------------------------------------------------------------- the pool

  /** The lowest index from i on that is not in use, or n. */
  ghost function LeastFree(live: set<nat>, i: nat, n: nat): (k: nat)
    requires i <= n
    ensures i <= k <= n && (forall j :: i <= j < k ==> j in live) && (k < n ==> k !in live)
    decreases n - i
  {
    if i < n && i in live then LeastFree(live, i + 1, n) else i
  }

  /** The index of the object around address p. */
  function IndexAround(r: Region, p: nat): nat
    requires 0 < r.size
  {
    if p < r.Object(0) then 0 else (p - r.Object(0)) / r.size
  }

  lemma InObjectIndex(r: Region, i: nat, p: nat)
    requires Geometry(r) && InObject(r, i, p)
    ensures IndexAround(r, p) == i
  {
    hide SlabOverhead;
    QuotientOf(i, r.size, p - r.Object(i));
    assert p - r.Object(0) == i * r.size + (p - r.Object(i)) by { MulLe(0, 0, r.size); }
  }

  /** The client's side of the bargain: it frees and writes only inside live objects. */
  ghost predicate Legal(r: Region, live: set<nat>, op: Op)
    requires 0 < r.size
  {
    op.Alloc? || exists i :: i in live && InObject(r, i, op.mem)
  }

  /** One operation of the pool: the indices in use afterwards and the address returned. */
  ghost function PoolStep(r: Region, live: set<nat>, op: Op): (set<nat>, nat)
    requires 0 < r.size
  {
    match op
    case Alloc =>
      var i := LeastFree(live, 0, r.entries);
      if i < r.entries then (live + {i}, r.Object(i)) else (live, 0)
    case Free(p) => (live - {IndexAround(r, p)}, 0)
    case Write(_, _) => (live, 0)
  }

  lemma {:induction false} NatsBelow(live: set<nat>, n: nat)
    requires forall i :: i in live ==> i < n
    ensures |live| <= n && (|live| == n <==> forall i: nat :: i < n ==> i in live)
  {
    if n > 0 {
      var rest := live - {n - 1};
      NatsBelow(rest, n - 1);
      if n - 1 in live { assert live == rest + {n - 1}; } else { assert live == rest; }
    }
  }

  /** The pool is exhausted, and answers 0, exactly when all entries are in use. */
  lemma NullExactlyWhenFull(r: Region, live: set<nat>)
    requires Geometry(r) && forall i :: i in live ==> i < r.entries
    ensures PoolStep(r, live, Alloc).1 == 0 <==> |live| == r.entries
  {
    NatsBelow(live, r.entries);
    var i := LeastFree(live, 0, r.entries);
    if i < r.entries { AddressOf(r, i, r.Object(i)); }
  }

  // ---------------------------------------------------------------- the allocator, operation by operation

  lemma FreeInRange(m: Memory, r: Region, p: nat)
    requires Sound(m, r) && exists i :: i in Live(m, r) && InObject(r, i, p)
    ensures p < |m| && r.Bits() + BitmapIdx(SlabIndex(r.start, r.size, r.bitmap, p)) < |m|
    ensures SlabIndex(r.start, r.size, r.bitmap, p) == IndexAround(r, p) < r.entries
    ensures InObject(r, IndexAround(r, p), p) && IndexAround(r, p) in Live(m, r)
  {
    hide SlabOverhead, SlabIndex, FromLE, HeaderFields, BitmapGet, Fits;
    var i :| i in Live(m, r) && InObject(r, i, p);
    AddressOf(r, i, p);
    InObjectIndex(r, i, p);
    SoundExtent(m, r);
  }

  ghost function SlabStep(m: Memory, r: Region, op: Op): (Memory, nat)
    requires Sound(m, r) && Legal(r, Live(m, r), op)
  {
    match op
    case Alloc => AllocSpec(m, r)
    case Free(p) =>
      FreeInRange(m, r, p);
      (Clear(m, r.Bits(), SlabIndex(r.start, r.size, r.bitmap, p)), 0)
    case Write(p, v) =>
      FreeInRange(m, r, p);
      (m[p := v], 0)
  }

  lemma {:induction false} ScanIsLeastFree(m: Memory, r: Region, i: nat)
    requires Sound(m, r) && i <= r.entries
    ensures FirstClear(m, r, i) == LeastFree(Live(m, r), i, r.entries)
    decreases r.entries - i
  {
    hide FromLE, HeaderFields, Geometry;
    SoundExtent(m, r);
    if i < r.entries && BitmapGet(m, r.Bits(), i) { ScanIsLeastFree(m, r, i + 1); }
  }

  lemma SoundSize(m: Memory, r: Region)
    requires Sound(m, r)
    ensures 0 < r.size
  {
  }

  /** One operation acts on the bitmap as the pool acts on its set, returns the pool's address, and
      touches only what it may: bitmap bytes, or the byte the client writes. */
  lemma StepRefinesPool(m: Memory, r: Region, op: Op)
    requires Sound(m, r) && Legal(r, Live(m, r), op)
    ensures var (m', p) := SlabStep(m, r, op);
      && Sound(m', r) && (Live(m', r), p) == PoolStep(r, Live(m, r), op)
      && (if op.Write? then SameOutside(m, m', op.mem, 1) else SameOutside(m, m', r.Bits(), r.bitmap))
  {
    hide SlabOverhead, SlabIndex, FromLE, HeaderFields, Geometry, Set, Clear, BitmapGet;
    SoundSize(m, r);
    match op
    case Alloc =>
      ScanIsLeastFree(m, r, 0);
      var i := FirstClear(m, r, 0);
      if i < r.entries { BitChanged(m, r, i); }
    case Free(p) =>
      FreeInRange(m, r, p);
      BitChanged(m, r, IndexAround(r, p));
    case Write(p, v) =>
      FreeInRange(m, r, p);
      ObjectWritten(m, r, IndexAround(r, p), p, v);
  }

  /** slab_alloc in numbers: the address of the lowest entry not in use, 0 when all are. */
  lemma AllocInBytes(m: Memory, r: Region, first: nat, i: nat)
    requires Sound(m, r) && 0 < r.size && first % r.size == 0 && 8 + r.bitmap < first <= 8 + r.bitmap + r.size
    requires i <= r.entries && (forall j :: 0 <= j < i ==> j in Live(m, r)) && (i < r.entries ==> i !in Live(m, r))
    ensures AllocSpec(m, r).1 == if i < r.entries then r.start + first + i * r.size else 0
  {
    hide FromLE, HeaderFields, Live;
    ScanIsLeastFree(m, r, 0);
    if i < r.entries { ObjectInBytes(r, first, i); }
  }

  // ---------------------------------------------------------------- runs

  ghost predicate LegalRun(r: Region, live: set<nat>, ops: seq<Op>)
    requires 0 < r.size
    decreases ops
  {
    |ops| == 0 || (Legal(r, live, ops[0]) && LegalRun(r, PoolStep(r, live, ops[0]).0, ops[1..]))
  }

  ghost function PoolRun(r: Region, live: set<nat>, ops: seq<Op>): (set<nat>, seq<nat>)
    requires 0 < r.size
    decreases ops
  {
    if |ops| == 0 then (live, [])
    else
      var (live1, p) := PoolStep(r, live, ops[0]);
      var (live2, ps) := PoolRun(r, live1, ops[1..]);
      (live2, [p] + ps)
  }

  ghost function SlabRun(m: Memory, r: Region, ops: seq<Op>): (Memory, seq<nat>)
    requires Sound(m, r) && LegalRun(r, Live(m, r), ops)
    decreases ops
  {
    if |ops| == 0 then (m, [])
    else
      StepRefinesPool(m, r, ops[0]);
      var (m1, p) := SlabStep(m, r, ops[0]);
      var (m2, ps) := SlabRun(m1, r, ops[1..]);
      (m2, [p] + ps)
  }

  /** Some operation is a client write to address p. */
  predicate Writes(ops: seq<Op>, p: nat) {
    exists op :: op in ops && op.Write? && op.mem == p
  }

  /** The same frame for one operation. */
  lemma StepFrame(m: Memory, r: Region, op: Op)
    requires Sound(m, r) && Legal(r, Live(m, r), op)
    ensures var m' := SlabStep(m, r, op).0;
      && r.Bits() <= |m| == |m'| && m'[r.start..r.Bits()] == m[r.start..r.Bits()]
      && (forall p :: 0 <= p < |m| && !(r.start <= p < r.Bits() + r.bitmap) && (op.Write? ==> op.mem != p)
            ==> m'[p] == m[p])
  {
    hide SlabOverhead, SlabIndex, FromLE, HeaderFields, BitmapGet, SlabStep, Live;
    StepRefinesPool(m, r, op);
    SoundExtent(m, r);
    if op.Write? {
      FreeInRange(m, r, op.mem);
      AddressOf(r, IndexAround(r, op.mem), op.mem);
    }
  }

  /** In every legal run the allocator returns the pool's addresses, the bitmap stays the pool's set,
      the header never changes, and a byte outside header and bitmap changes only when the client
      writes it. */
  lemma {:induction false} RunRefinesPool(m: Memory, r: Region, ops: seq<Op>)
    requires Sound(m, r) && LegalRun(r, Live(m, r), ops)
    ensures var (m', ps) := SlabRun(m, r, ops);
      && Sound(m', r) && (Live(m', r), ps) == PoolRun(r, Live(m, r), ops)
      && |m'| == |m| && m'[r.start..r.Bits()] == m[r.start..r.Bits()]
      && forall p :: 0 <= p < |m| && !(r.start <= p < r.Bits() + r.bitmap) && !Writes(ops, p) ==> m'[p] == m[p]
    decreases ops
  {
    hide Sound, Legal, PoolStep, SlabStep, Live;
    if 0 < |ops| {
      StepRefinesPool(m, r, ops[0]);
      StepFrame(m, r, ops[0]);
      var m1 := SlabStep(m, r, ops[0]).0;
      RunRefinesPool(m1, r, ops[1..]);
      assert forall p: nat :: Writes(ops[1..], p) ==> Writes(ops, p);
    }
  }

  /** Objects never collide: with each other, with header or bitmap, or with the end of the region. */
  lemma ObjectsNeverCollide(r: Region, i: nat, j: nat)
    requires Geometry(r) && i < j < r.entries
    ensures r.Bits() + r.bitmap < r.Object(i) && r.Object(i) + r.size <= r.Object(j) && r.Object(j) + r.size <= r.end
  {
    hide SlabOverhead, Fits;
    AddressOf(r, i, r.Object(i));
    AddressOf(r, j, r.Object(j));
    ObjectsApart(r.start, r.size, r.bitmap, i, j);
  }

  // ---------------------------------------------------------------- the code makes such steps

  /** Performing one legal operation on real memory is a step of the model. */
  method Perform(ram: array<bv8>, r: Region, op: Op) returns (p: nat)
    requires Sound(ram[..], r) && Legal(r, Live(ram[..], r), op)
    modifies ram
    ensures Sound(old(ram[..]), r) && (ram[..], p) == SlabStep(old(ram[..]), r, op)
  {
    hide SlabOverhead, SlabIndex, FromLE, HeaderFields, BitmapGet, Fits, Set, Clear;
    match op
    case Alloc =>
      p := SlabAlloc(ram, r.start, r);
    case Free(mem) =>
      FreeInRange(ram[..], r, mem);
      SlabFree(ram, r.start, mem, r, IndexAround(r, mem));
      p := 0;
    case Write(mem, value) =>
      FreeInRange(ram[..], r, mem);
      ram[mem] := value;
      p := 0;
  }
}
