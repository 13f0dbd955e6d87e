/**
 The search for a free block as its text reads, and what it does when there is none.
 */
module HeapAsWrittenSearch {
  import opened Blocks
  import opened Headers
  import opened HeapAllocator
  import opened HeapAsWritten
  import opened Bytes

  /** While some block fits, the search finds the first one. */
  lemma {:induction false} SearchFinds(m: Memory, bs: seq<Block>, lo: nat, hi: nat, need: nat, k: nat, turns: nat)
    requires Setting(m, bs, lo, hi)
    requires k <= FirstFit(bs, need) < |bs| && FirstFit(bs, need) - k <= turns
    ensures GetFreeBlock(m, bs[k].addr, need, hi, turns) == Done(bs[FirstFit(bs, need)].addr)
    decreases FirstFit(bs, need) - k
  {
    hide HeaderAt;
    AtBlock(m, bs, lo, hi, k);
    if k < FirstFit(bs, need) {
      assert !bs[k].Fits(need);
      SearchFinds(m, bs, lo, hi, need, k + 1, turns - 1);
    }
  }

  /** When none fits, the search runs off the list and reads a header at address 0. */
  lemma {:induction false} SearchRunsIntoNull(m: Memory, bs: seq<Block>, lo: nat, hi: nat, need: nat,
                                               k: nat, turns: nat)
    requires Setting(m, bs, lo, hi) && FirstFit(bs, need) == |bs| && k < |bs| && |bs| - k <= turns
    ensures GetFreeBlock(m, bs[k].addr, need, hi, turns) == GetFreeBlock(m, NULL, need, hi, turns - (|bs| - k))
    decreases |bs| - k
  {
    hide HeaderAt;
    AtBlock(m, bs, lo, hi, k);
    assert !bs[k].Fits(need);
    if k + 1 < |bs| { SearchRunsIntoNull(m, bs, lo, hi, need, k + 1, turns - 1); }
  }

  /** Whatever lies at a looks like a free header that is large enough. */
  predicate Serves(m: Memory, a: nat, need: nat) {
    a + HEADER_SIZE <= |m| && HeaderAt(m, a).free && need <= HeaderAt(m, a).size
  }

  /** The search reads a header at a and goes on. */
  predicate Passes(m: Memory, a: nat, need: nat) {
    a + HEADER_SIZE <= |m| && !Serves(m, a, need)
  }

  /** The link at a leads to b, which passes the validity test. */
  predicate Leads(m: Memory, a: nat, b: nat, hi: nat) {
    a + HEADER_SIZE <= |m| && HeaderAt(m, a).next == b < hi
  }

  /** Addresses the search visits one after the other without finding anything. */
  ghost predicate LinkPath(m: Memory, hops: seq<nat>, need: nat, hi: nat) {
    && |hops| > 0
    && (forall k :: 0 <= k < |hops| ==> Passes(m, hops[k], need))
    && (forall j, k :: 0 <= j && k == j + 1 < |hops| ==> Leads(m, hops[j], hops[k], hi))
  }

  /** The link at the end of such a path. */
  ghost function Onward(m: Memory, hops: seq<nat>): nat
    requires |hops| > 0 && hops[|hops| - 1] + HEADER_SIZE <= |m|
  {
    HeaderAt(m, hops[|hops| - 1]).next
  }

  lemma PathJoin(m: Memory, hops: seq<nat>, tail: seq<nat>, need: nat, hi: nat)
    requires LinkPath(m, hops, need, hi) && LinkPath(m, tail, need, hi)
    requires Leads(m, hops[|hops| - 1], tail[0], hi)
    ensures LinkPath(m, hops + tail, need, hi) && (hops + tail)[|hops + tail| - 1] == tail[|tail| - 1]
  {
    hide Passes, Leads;
    var path := hops + tail;
    forall x, y | 0 <= x && y == x + 1 < |path| ensures Leads(m, path[x], path[y], hi) {
      if |hops| <= x {
        assert path[x] == tail[x - |hops|] && path[y] == tail[y - |hops|];
      } else if x + 1 < |hops| {
        assert path[x] == hops[x] && path[y] == hops[y];
      } else {
        assert path[x] == hops[|hops| - 1] && path[y] == tail[0];
      }
    }
  }

  lemma PathTail(m: Memory, hops: seq<nat>, need: nat, hi: nat)
    requires LinkPath(m, hops, need, hi) && 1 < |hops|
    ensures LinkPath(m, hops[1..], need, hi) && hops[1..][|hops| - 2] == hops[|hops| - 1]
  {
    hide Passes, Leads;
    var tail := hops[1..];
    forall x, y | 0 <= x && y == x + 1 < |tail| ensures Leads(m, tail[x], tail[y], hi) {
      assert tail[x] == hops[x + 1] && tail[y] == hops[y + 1];
    }
  }

  lemma {:induction false} PathSearch(m: Memory, hops: seq<nat>, need: nat, hi: nat, turns: nat)
    requires LinkPath(m, hops, need, hi) && |hops| - 1 <= turns
    ensures GetFreeBlock(m, hops[0], need, hi, turns)
         == GetFreeBlock(m, hops[|hops| - 1], need, hi, turns - (|hops| - 1))
    decreases |hops|
  {
    hide HeaderAt;
    if 1 < |hops| {
      assert Passes(m, hops[0], need) && Leads(m, hops[0], hops[1], hi);
      PathTail(m, hops, need, hi);
      hide LinkPath;
      PathSearch(m, hops[1..], need, hi, turns - 1);
    }
  }

  /** A path that comes back to itself never ends. */
  lemma {:induction false} PathLoops(m: Memory, hops: seq<nat>, need: nat, hi: nat, j: nat, k: nat, turns: nat)
    requires LinkPath(m, hops, need, hi) && j < |hops| && Onward(m, hops) == hops[j] < hi && k < |hops|
    ensures GetFreeBlock(m, hops[k], need, hi, turns) == Running
    decreases turns
  {
    hide HeaderAt;
    var next := if k + 1 < |hops| then k + 1 else j;
    assert Passes(m, hops[k], need) && Leads(m, hops[k], hops[next], hi);
    if 0 < turns { PathLoops(m, hops, need, hi, j, next, turns - 1); }
  }

  /** The addresses of the blocks from k on. */
  function From(bs: seq<Block>, k: nat): seq<nat>
    requires k <= |bs|
  {
    seq<nat>(|bs| - k, j requires 0 <= j < |bs| - k => bs[k + j].addr)
  }

  lemma ListHop(m: Memory, bs: seq<Block>, lo: nat, hi: nat, need: nat, k: nat)
    requires Setting(m, bs, lo, hi) && FirstFit(bs, need) == |bs| && k < |bs|
    ensures Passes(m, bs[k].addr, need) && bs[k].addr < hi
    ensures if k + 1 < |bs| then Leads(m, bs[k].addr, bs[k + 1].addr, hi) else Leads(m, bs[k].addr, NULL, hi)
  {
    hide HeaderAt;
    AtBlock(m, bs, lo, hi, k);
    TilesAbove(bs, lo, hi, k);
    assert !bs[k].Fits(need);
  }

  /** The blocks from k on are a path to NULL. */
  lemma ListPath(m: Memory, bs: seq<Block>, lo: nat, hi: nat, need: nat, k: nat)
    requires Setting(m, bs, lo, hi) && FirstFit(bs, need) == |bs| && k < |bs|
    ensures LinkPath(m, From(bs, k), need, hi) && bs[k].addr < hi
    ensures From(bs, k)[0] == bs[k].addr && Leads(m, From(bs, k)[|bs| - k - 1], NULL, hi)
  {
    hide HeaderAt, Setting, Passes, Leads;
    var path := From(bs, k);
    forall x | 0 <= x < |path| ensures Passes(m, path[x], need) {
      ListHop(m, bs, lo, hi, need, k + x);
    }
    forall x, y | 0 <= x && y == x + 1 < |path| ensures Leads(m, path[x], path[y], hi) {
      ListHop(m, bs, lo, hi, need, k + x);
      assert path[x] == bs[k + x].addr && path[y] == bs[k + x + 1].addr;
    }
    ListHop(m, bs, lo, hi, need, k);
    ListHop(m, bs, lo, hi, need, |bs| - 1);
    assert path[|bs| - k - 1] == bs[|bs| - 1].addr;
  }

  /** Out of memory: the search goes on from address 0 along whatever links it finds there.  A link past
      the heap yields NULL; a link back to the path or into the list never ends; a header that looks
      free and large enough is handed out, wherever it is; a header outside memory faults. */
  lemma OutOfMemory(m: Memory, bs: seq<Block>, lo: nat, hi: nat, need: nat, hops: seq<nat>, turns: nat)
    requires Setting(m, bs, lo, hi) && FirstFit(bs, need) == |bs|
    requires LinkPath(m, hops, need, hi) && hops[0] == NULL && |bs| + |hops| <= turns
    ensures var x, r := Onward(m, hops), GetFreeBlock(m, lo, need, hi, turns);
      && (hi <= x ==> r == Done(NULL))
      && (x < hi && (x in hops || x in HeaderAddrs(bs)) ==> r == Running)
      && (x < hi && Serves(m, x, need) ==> r == Done(x))
      && (x < hi && |m| < x + HEADER_SIZE ==> r == Fault)
  {
    hide HeaderAt;
    var x, left := Onward(m, hops), turns - |bs|;
    SearchRunsIntoNull(m, bs, lo, hi, need, 0, turns);
    PathSearch(m, hops, need, hi, left);
    assert Passes(m, hops[|hops| - 1], need);
    if x < hi && x in hops {
      var j :| 0 <= j < |hops| && hops[j] == x;
      PathLoops(m, hops, need, hi, j, 0, left);
    } else if x < hi && x in HeaderAddrs(bs) {
      var k :| 0 <= k < |bs| && bs[k].addr == x;
      ListPath(m, bs, lo, hi, need, k);
      PathJoin(m, hops, From(bs, k), need, hi);
      var path := hops + From(bs, k);
      assert path[0] == NULL;
      hide LinkPath, GetFreeBlock;
      PathLoops(m, path, need, hi, 0, 0, left);
    }
  }

  /** The links found from address 0 on lead past the heap within so many turns. */
  ghost predicate Escapes(m: Memory, need: nat, hi: nat, turns: nat) {
    exists hops: seq<nat> ::
      LinkPath(m, hops, need, hi) && hops[0] == NULL && |hops| - 1 <= turns && hi <= Onward(m, hops)
  }

  /** The path of a search that comes back with NULL. */
  lemma {:induction false} SearchedPath(m: Memory, a: nat, need: nat, hi: nat, turns: nat) returns (hops: seq<nat>)
    requires GetFreeBlock(m, a, need, hi, turns) == Done(NULL) && !Serves(m, NULL, need)
    ensures LinkPath(m, hops, need, hi) && hops[0] == a && |hops| - 1 <= turns && hi <= Onward(m, hops)
    decreases turns
  {
    hide HeaderAt;
    if HeaderAt(m, a).next < hi {
      var rest := SearchedPath(m, HeaderAt(m, a).next, need, hi, turns - 1);
      assert LinkPath(m, [a], need, hi);
      hide LinkPath;
      PathJoin(m, [a], rest, need, hi);
      hops := [a] + rest;
    } else {
      hops := [a];
    }
  }

  lemma EscapeSearch(m: Memory, hops: seq<nat>, need: nat, hi: nat, turns: nat)
    requires LinkPath(m, hops, need, hi) && |hops| - 1 <= turns && hi <= Onward(m, hops)
    ensures GetFreeBlock(m, hops[0], need, hi, turns) == Done(NULL)
  {
    PathSearch(m, hops, need, hi, turns);
    assert Passes(m, hops[|hops| - 1], need);
  }

  /** From address 0 the search comes back with NULL exactly when the bytes there look large enough
      themselves or their links lead past the heap. */
  lemma NullFromNull(m: Memory, need: nat, hi: nat, turns: nat)
    requires HEADER_SIZE <= |m|
    ensures GetFreeBlock(m, NULL, need, hi, turns) == Done(NULL)
       <==> Serves(m, NULL, need) || Escapes(m, need, hi, turns)
  {
    hide HeaderAt, Onward;
    if Serves(m, NULL, need) {
      assert GetFreeBlock(m, NULL, need, hi, turns) == Done(NULL);
    } else {
      hide GetFreeBlock;
      if GetFreeBlock(m, NULL, need, hi, turns) == Done(NULL) {
        var hops := SearchedPath(m, NULL, need, hi, turns);
      }
      if Escapes(m, need, hi, turns) {
        var hops: seq<nat> :|
          LinkPath(m, hops, need, hi) && hops[0] == NULL && |hops| - 1 <= turns && hi <= Onward(m, hops);
        EscapeSearch(m, hops, need, hi, turns);
      }
    }
  }

  /** The same for a search of the heap in which nothing fits. */
  lemma NullExactly(m: Memory, bs: seq<Block>, lo: nat, hi: nat, need: nat, turns: nat)
    requires Setting(m, bs, lo, hi) && FirstFit(bs, need) == |bs| && |bs| <= turns
    ensures GetFreeBlock(m, lo, need, hi, turns) == Done(NULL)
       <==> Serves(m, NULL, need) || Escapes(m, need, hi, turns - |bs|)
  {
    hide HeaderAt, GetFreeBlock, Serves, Escapes, Linked, Coalesced;
    SearchRunsIntoNull(m, bs, lo, hi, need, 0, turns);
    NullFromNull(m, need, hi, turns - |bs|);
  }
}
