/**
 Splitting a block as the text of insert_new_block reads: exactly when the result is the documented
 list, and which bytes at address 0 it costs.
 */
module HeapAsWrittenSplit {
  import opened Arithmetic
  import opened Bytes
  import opened Blocks
  import opened Headers
  import opened HeapAllocator
  import opened HeapAsWritten

  /** Storing a header apart from hdr gives the four fields of the text. */
  lemma StartedHeader(m: Memory, hdr: nat, next: nat, need: nat)
    requires hdr + HEADER_SIZE <= |m| && next + HEADER_SIZE <= |m| && Apart(next, hdr)
    ensures var h, r := HeaderAt(m, hdr), StartHeader(m, hdr, next, need);
      r.Done? && HeaderWritten(m, r.value, next, Header(hdr % U64, h.next % U64, (h.size - need) % U64, true))
  {
    hide HeaderAt, SetPrevious, SetNext, SetSize, SetFree, ClearHeader, HeaderWritten;
    var h, h0 := HeaderAt(m, hdr), HeaderAt(m, next).(free := true);
    var m1 := SetFree(m, next, true);
    WrittenReads(m, m1, next, h0, hdr);
    var h1 := h0.(size := (h.size - need) % U64);
    var m2 := SetSize(m1, next, h1.size);
    WrittenTwice(m, m1, m2, next, h0, h1);
    WrittenReads(m, m2, next, h1, hdr);
    var h2 := h1.(previous := hdr % U64);
    var m3 := SetPrevious(m2, next, h2.previous);
    WrittenTwice(m, m2, m3, next, h1, h2);
    WrittenReads(m, m3, next, h2, hdr);
    WrittenTwice(m, m3, SetNext(m3, next, h.next % U64), next, h2, h2.(next := h.next % U64));
  }

  /** The closing stores: a back link through n.next, NULL included, then the header being cut. */
  lemma LinkedHeader(m: Memory, hdr: nat, next: nat, need: nat)
    requires hdr + HEADER_SIZE <= |m| && next + HEADER_SIZE <= |m| && need < U64 && next < U64
    requires var after := HeaderAt(m, next).next; after + HEADER_SIZE <= |m| && Apart(after, hdr)
    ensures var after, h := HeaderAt(m, next).next, HeaderAt(m, hdr);
      var m1 := SetPrevious(m, after, next);
      var m2 := SetNext(SetSize(m1, hdr, need), hdr, next);
      && LinkHeader(m, hdr, next, need) == Done(m2)
      && HeaderWritten(m, m1, after, HeaderAt(m, after).(previous := next))
      && HeaderWritten(m1, m2, hdr, Header(h.previous, next, need, h.free))
  {
    hide HeaderAt, SetPrevious, SetNext, SetSize, SetFree, ClearHeader, HeaderWritten;
    var after, h := HeaderAt(m, next).next, HeaderAt(m, hdr);
    var m1 := SetPrevious(m, after, next);
    WrittenReads(m, m1, after, HeaderAt(m, after).(previous := next), hdr);
    var m2 := SetSize(m1, hdr, need);
    WrittenHere(m1, m2, hdr, h.(size := need));
    WrittenTwice(m1, m2, SetNext(m2, hdr, next), hdr, h.(size := need), Header(h.previous, next, need, h.free));
  }

  /** What splitting a block i that is already marked used starts from. */
  ghost predicate Splittable(m: Memory, bs: seq<Block>, lo: nat, hi: nat, i: nat, need: nat) {
    && HEADER_SIZE <= lo && hi < U64 && hi <= |m| && Tiles(bs, lo, hi) && Linked(m, bs)
    && i < |bs| && HEADER_SIZE <= need && need + HEADER_SIZE <= bs[i].size
  }

  /** The list before block i was marked. */
  function Unmarked(bs: seq<Block>, i: nat): seq<Block>
    requires i < |bs|
  {
    bs[i := bs[i].(free := true)]
  }

  /** The new header as the text first writes it. */
  function Started(bs: seq<Block>, i: nat, need: nat): Header
    requires i < |bs| && need <= bs[i].size
  {
    Header(bs[i].addr, HeaderOf(bs, i).next, bs[i].size - need, true)
  }

  lemma SplitStarts(m: Memory, bs: seq<Block>, lo: nat, hi: nat, i: nat, need: nat) returns (m1: Memory)
    requires Splittable(m, bs, lo, hi, i, need)
    ensures var hdr, next := bs[i].addr, bs[i].addr + need;
      && next + HEADER_SIZE <= hi && Apart(next, hdr) && Apart(next, NULL) && Apart(hdr, NULL)
      && (hdr + need) % U64 == next && |m1| == |m|
      && StartHeader(m, hdr, next, need) == Done(m1) && HeaderWritten(m, m1, next, Started(bs, i, need))
      && HeaderAt(m1, next) == Started(bs, i, need) && HeaderAt(m1, hdr) == HeaderOf(bs, i)
      && HeaderAt(m1, NULL) == HeaderAt(m, NULL)
  {
    hide HeaderAt, SetPrevious, SetNext, SetSize, SetFree, ClearHeader, HeaderWritten, Linked, Tiles, StartHeader,
      LinkHeader, SwallowFree;
    var hdr, next := bs[i].addr, bs[i].addr + need;
    InsertReads(m, bs, i, need, lo, hi);
    TilesBelow(bs, lo, hi, i);
    SmallMod(next, U64);
    StartedHeader(m, hdr, next, need);
    var n := Started(bs, i, need);
    m1 := StartHeader(m, hdr, next, need).value;
    assert HeaderWritten(m, m1, next, n);
    WrittenReads(m, m1, next, n, hdr);
    WrittenReads(m, m1, next, n, NULL);
  }

  /** Where the split stores headers was free, or held a header, before block i was marked. */
  lemma SplitPlaces(bs: seq<Block>, lo: nat, hi: nat, i: nat, need: nat)
    requires Tiles(bs, lo, hi) && i < |bs| && need + HEADER_SIZE <= bs[i].size
    ensures Tiles(Unmarked(bs, i), lo, hi)
    ensures HeaderPlace(Unmarked(bs, i), bs[i].addr) && HeaderPlace(Unmarked(bs, i), bs[i].addr + need)
    ensures i + 1 < |bs| ==> HeaderPlace(Unmarked(bs, i), bs[i + 1].addr)
  {
    var us := Unmarked(bs, i);
    assert us[i] in us;
    if i + 1 < |bs| { assert us[i + 1] in us; }
  }

  lemma ThreeStoresKeep(k: nat, m: Memory, m1: Memory, m2: Memory, m3: Memory, bs: seq<Block>, lo: nat, hi: nat)
    requires KeepsPayloads(m, m1, bs, lo, hi) && KeepsPayloads(m2, m3, bs, lo, hi)
    requires KeepsPayloads(m1, m2, bs, lo, hi) || KeepsAbove(k, m1, m2, bs, lo, hi)
    ensures KeepsAbove(k, m, m3, bs, lo, hi)
    ensures KeepsPayloads(m1, m2, bs, lo, hi) ==> KeepsPayloads(m, m3, bs, lo, hi)
  {
  }

  /** A roomy block whose right neighbour is in use is split as documented. */
  lemma InsertAsDocumented(m: Memory, bs: seq<Block>, lo: nat, hi: nat, i: nat, need: nat)
    requires Splittable(m, bs, lo, hi, i, need) && i + 1 < |bs| && !bs[i + 1].free
    ensures var r := InsertNewBlock(m, bs[i].addr, need);
      && r.Done? && |r.value| == |m| && Linked(r.value, Split(bs, i, need))
      && KeepsPayloads(m, r.value, Unmarked(bs, i), lo, hi)
  {
    hide HeaderAt, SetPrevious, SetNext, SetSize, SetFree, ClearHeader, HeaderWritten, Linked, Tiles, StartHeader,
      LinkHeader, HeaderPlace, KeepsPayloads, KeepsAbove;
    var hdr, next, us := bs[i].addr, bs[i].addr + need, Unmarked(bs, i);
    var m1 := SplitStarts(m, bs, lo, hi, i, need);
    SplitPlaces(bs, lo, hi, i, need);
    InsertReads(m, bs, i, need, lo, hi);
    var n, h, after := NewHeader(bs, i, need), HeaderOf(bs, i), bs[i + 1].addr;
    WrittenReads(m, m1, next, n, after);
    assert SwallowFree(m1, next) == Done(m1);
    LinkedHeader(m1, hdr, next, need);
    var m2 := SetPrevious(m1, after, next);
    var m3 := LinkHeader(m1, hdr, next, need).value;
    assert HeaderWritten(m1, m2, after, HeaderOf(bs, i + 1).(previous := next));
    assert HeaderWritten(m2, m3, hdr, Header(h.previous, next, need, h.free));
    InsertLinks(m, m1, m1, m2, m3, bs, i, need, lo, hi);
    HeaderStoreKeeps(m, m1, us, lo, hi, next, n);
    HeaderStoreKeeps(m1, m2, us, lo, hi, after, HeaderOf(bs, i + 1).(previous := next));
    HeaderStoreKeeps(m2, m3, us, lo, hi, hdr, Header(h.previous, next, need, h.free));
    ThreeStoresKeep(0, m, m1, m2, m3, us, lo, hi);
    WrittenHere(m2, m3, hdr, Header(h.previous, next, need, h.free));
    WrittenHere(m1, m2, after, HeaderOf(bs, i + 1).(previous := next));
  }

  /** The last block is split as documented too, but its new neighbour's address is stored at NULL: those
      eight bytes keep their value exactly when they hold that address already. */
  lemma InsertLast(m: Memory, bs: seq<Block>, lo: nat, hi: nat, i: nat, need: nat)
    requires Splittable(m, bs, lo, hi, i, need) && i + 1 == |bs| && Quiet(m)
    ensures var r, next := InsertNewBlock(m, bs[i].addr, need), bs[i].addr + need;
      && r.Done? && |r.value| == |m| && Linked(r.value, Split(bs, i, need))
      && HeaderAt(r.value, NULL) == HeaderAt(m, NULL).(previous := next)
      && KeepsAbove(8, m, r.value, Unmarked(bs, i), lo, hi)
      && (KeepsPayloads(m, r.value, Unmarked(bs, i), lo, hi) <==> HeaderAt(m, NULL).previous == next)
  {
    hide HeaderAt, SetPrevious, SetNext, SetSize, SetFree, ClearHeader, HeaderWritten, Linked, Tiles, StartHeader,
      LinkHeader, HeaderPlace, KeepsPayloads, KeepsAbove;
    var hdr, next, us := bs[i].addr, bs[i].addr + need, Unmarked(bs, i);
    var m1 := SplitStarts(m, bs, lo, hi, i, need);
    SplitPlaces(bs, lo, hi, i, need);
    var n, h, b := NewHeader(bs, i, need), HeaderOf(bs, i), HeaderAt(m, NULL).(previous := next);
    assert SwallowFree(m1, next) == Done(m1);
    LinkedHeader(m1, hdr, next, need);
    var m2 := SetPrevious(m1, NULL, next);
    var m3 := LinkHeader(m1, hdr, next, need).value;
    assert HeaderWritten(m1, m2, NULL, b);
    assert HeaderWritten(m2, m3, hdr, Header(h.previous, next, need, h.free));
    InsertLinks(m, m1, m1, m2, m3, bs, i, need, lo, hi);
    WrittenHere(m1, m2, NULL, b);
    WrittenReads(m2, m3, hdr, Header(h.previous, next, need, h.free), NULL);
    HeaderStoreKeeps(m, m1, us, lo, hi, next, n);
    HeaderStoreKeeps(m2, m3, us, lo, hi, hdr, Header(h.previous, next, need, h.free));
    PreviousStored(m1, NULL, next);
    LowStoreKeeps(8, m1, m2, us, lo, hi);
    if HeaderAt(m, NULL).previous == next {
      LowStoreKeeps(0, m1, m2, us, lo, hi);
      KeepsFromZero(0, m1, m2, us, lo, hi);
    }
    ThreeStoresKeep(8, m, m1, m2, m3, us, lo, hi);
    KeepsNullHeader(m, m3, us, lo, hi);
  }

  /** The merge inside insert_new_block: the new header takes over the free neighbour b, then the header
      b links to is cleared. */
  lemma SwallowedHeader(m: Memory, next: nat, b: nat, n: Header, h: Header) returns (m2: Memory)
    requires next + HEADER_SIZE <= |m| && b + HEADER_SIZE <= |m| && Apart(next, b)
    requires HeaderAt(m, next) == n && n.next == b && HeaderAt(m, b) == h && h.free
    ensures HeaderWritten(m, m2, next, n.(size := (n.size + h.size) % U64, next := h.next % U64))
    ensures SwallowFree(m, next) == PutZero(m2, h.next % U64)
  {
    hide HeaderAt, SetPrevious, SetNext, SetSize, SetFree, ClearHeader, HeaderWritten;
    var n1 := n.(size := (n.size + h.size) % U64);
    var n2 := n1.(next := h.next % U64);
    var m1 := SetSize(m, next, n1.size);
    WrittenReads(m, m1, next, n1, b);
    m2 := SetNext(m1, next, n2.next);
    WrittenHere(m1, m2, next, n2);
    WrittenTwice(m, m1, m2, next, n1, n2);
  }

  /** The merge on a splittable block whose right neighbour is free. */
  lemma SplitSwallows(m: Memory, bs: seq<Block>, lo: nat, hi: nat, i: nat, need: nat) returns (m2: Memory)
    requires Splittable(m, bs, lo, hi, i, need) && FreeAfter(bs, i)
    ensures var hdr, next, z := bs[i].addr, bs[i].addr + need, HeaderOf(bs, i + 1).next;
      && |m2| == |m| && z + HEADER_SIZE <= |m| && Apart(z, next) && Apart(z, hdr)
      && next + HEADER_SIZE <= hi && Apart(next, hdr) && (hdr + need) % U64 == next
      && HeaderWritten(m, m2, next, NewHeader(bs, i, need))
      && InsertNewBlock(m, hdr, need) == LinkHeader(ClearHeader(m2, z), hdr, next, need)
  {
    hide HeaderAt, SetPrevious, SetNext, SetSize, SetFree, ClearHeader, HeaderWritten, Linked, Tiles, StartHeader,
      LinkHeader, SwallowFree;
    var hdr, next, b, z := bs[i].addr, bs[i].addr + need, bs[i + 1].addr, HeaderOf(bs, i + 1).next;
    var m1 := SplitStarts(m, bs, lo, hi, i, need);
    InsertReads(m, bs, i, need, lo, hi);
    TilesBelow(bs, lo, hi, i);
    var n, h := Started(bs, i, need), HeaderOf(bs, i + 1);
    WrittenReads(m, m1, next, n, b);
    m2 := SwallowedHeader(m1, next, b, n, h);
    SmallMod(n.size + h.size, U64);
    SmallMod(z, U64);
    WrittenTwice(m, m1, m2, next, n, NewHeader(bs, i, need));
    WrittenHere(m, m2, next, NewHeader(bs, i, need));
  }

  /** What the split then leaves at z: the header there is lost. */
  lemma SwallowedEnd(m: Memory, m2: Memory, bs: seq<Block>, lo: nat, hi: nat, i: nat, need: nat)
    returns (m4: Memory, m5: Memory)
    requires Splittable(m, bs, lo, hi, i, need) && FreeAfter(bs, i)
    requires var hdr, next, z := bs[i].addr, bs[i].addr + need, HeaderOf(bs, i + 1).next;
      && |m2| == |m| && z + HEADER_SIZE <= |m| && Apart(z, next) && Apart(z, hdr)
      && next + HEADER_SIZE <= hi && Apart(next, hdr)
      && HeaderWritten(m, m2, next, NewHeader(bs, i, need))
    ensures var hdr, next, z := bs[i].addr, bs[i].addr + need, HeaderOf(bs, i + 1).next;
      && LinkHeader(ClearHeader(m2, z), hdr, next, need) == Done(m5)
      && HeaderWritten(m2, m4, z, Header(next, NULL, 0, false))
      && HeaderWritten(m4, m5, hdr, Header(HeaderOf(bs, i).previous, next, need, bs[i].free))
  {
    hide HeaderAt, SetPrevious, SetNext, SetSize, SetFree, ClearHeader, HeaderWritten, Linked, Tiles, LinkHeader;
    var hdr, next, z := bs[i].addr, bs[i].addr + need, HeaderOf(bs, i + 1).next;
    InsertReads(m, bs, i, need, lo, hi);
    WrittenReads(m, m2, next, NewHeader(bs, i, need), hdr);
    var zero, m3 := Header(NULL, NULL, 0, false), ClearHeader(m2, z);
    WrittenReads(m2, m3, z, zero, next);
    WrittenReads(m2, m3, z, zero, hdr);
    LinkedHeader(m3, hdr, next, need);
    m4 := SetPrevious(m3, z, next);
    m5 := LinkHeader(m3, hdr, next, need).value;
    WrittenHere(m2, m3, z, zero);
    WrittenTwice(m2, m3, m4, z, zero, zero.(previous := next));
  }

  lemma SplitKeepsAfter(bs: seq<Block>, lo: nat, hi: nat, i: nat, need: nat)
    requires Tiles(bs, lo, hi) && FreeAfter(bs, i) && i + 2 < |bs| && need <= bs[i].size
    ensures |Split(bs, i, need)| == |bs| && Split(bs, i, need)[i + 2] == bs[i + 2] && HEADER_SIZE <= bs[i + 2].size
  {
  }

  lemma LinkedSize(m: Memory, bs: seq<Block>, k: nat)
    requires Linked(m, bs) && k < |bs|
    ensures bs[k].addr + HEADER_SIZE <= |m| && HeaderAt(m, bs[k].addr).size == bs[k].size
  {
    hide HeaderAt;
    assert HeaderAt(m, bs[k].addr) == HeaderOf(bs, k);
  }

  /** With a free right neighbour the text clears the wrong header.  It belongs to the block after the
      neighbour, which is lost, or, when there is none, it is the one at NULL, and the list is right. */
  lemma InsertSwallows(m: Memory, bs: seq<Block>, lo: nat, hi: nat, i: nat, need: nat)
    requires Splittable(m, bs, lo, hi, i, need) && FreeAfter(bs, i)
    ensures var r := InsertNewBlock(m, bs[i].addr, need);
      && r.Done? && |r.value| == |m| && (Linked(r.value, Split(bs, i, need)) <==> i + 2 == |bs|)
      && (i + 2 < |bs| ==> HeaderAt(r.value, bs[i + 2].addr) == Header(bs[i].addr + need, NULL, 0, false))
      && (i + 2 == |bs| ==> HeaderAt(r.value, NULL) == Header(bs[i].addr + need, NULL, 0, false))
  {
    hide HeaderAt, SetPrevious, SetNext, SetSize, SetFree, ClearHeader, HeaderWritten, Linked, Tiles, InsertNewBlock,
      LinkHeader;
    var hdr, next, z := bs[i].addr, bs[i].addr + need, HeaderOf(bs, i + 1).next;
    var zh, hh := Header(next, NULL, 0, false), Header(HeaderOf(bs, i).previous, next, need, bs[i].free);
    var m2 := SplitSwallows(m, bs, lo, hi, i, need);
    var m4, m5 := SwallowedEnd(m, m2, bs, lo, hi, i, need);
    WrittenReads(m, m2, next, NewHeader(bs, i, need), z);
    WrittenReads(m2, m4, z, zh, hdr);
    WrittenReads(m4, m5, hdr, hh, z);
    if i + 2 < |bs| {
      SplitKeepsAfter(bs, lo, hi, i, need);
      if Linked(m5, Split(bs, i, need)) { LinkedSize(m5, Split(bs, i, need), i + 2); }
    } else {
      InsertLinks(m, m2, m2, m4, m5, bs, i, need, lo, hi);
    }
  }

  /** Unless NULL looks like a free header, a split with room leaves the documented list exactly when no
      block follows a free right neighbour. */
  lemma InsertExact(m: Memory, bs: seq<Block>, lo: nat, hi: nat, i: nat, need: nat)
    requires Splittable(m, bs, lo, hi, i, need) && Quiet(m)
    ensures var r := InsertNewBlock(m, bs[i].addr, need);
      r.Done? && (Linked(r.value, Split(bs, i, need)) <==> !(FreeAfter(bs, i) && i + 2 < |bs|))
  {
    hide HeaderAt, Linked, Tiles, InsertNewBlock, Split;
    if FreeAfter(bs, i) {
      InsertSwallows(m, bs, lo, hi, i, need);
    } else if i + 1 < |bs| {
      InsertAsDocumented(m, bs, lo, hi, i, need);
    } else {
      InsertLast(m, bs, lo, hi, i, need);
    }
  }

  // ---------------------------------------------------------------- a NULL page that looks free

  /** m1 clears the header at z, m2 changes eight bytes at y. */
  ghost predicate ClearedThenLinked(m: Memory, m1: Memory, m2: Memory, z: nat, y: nat) {
    && z + HEADER_SIZE <= |m| && SameOutside(m, m1, z, HEADER_SIZE) && SameOutside(m1, m2, y, 8)
    && forall p :: z <= p < z + HEADER_SIZE ==> m1[p] == 0
  }

  lemma ClearedBeside(m: Memory, m1: Memory, m2: Memory, a: nat, z: nat)
    requires a + HEADER_SIZE <= |m| == |m1| && (z + HEADER_SIZE <= a + 8 || a + 16 <= z)
    requires ClearedThenLinked(m, m1, m2, z, FromLE(m1[a + 8..a + 16])) && z == FromLE(m[a + 8..a + 16])
    ensures FromLE(m2[a + 8..a + 16]) == z
  {
    hide FromLE;
    SliceSame(m, m1, z, HEADER_SIZE, a + 8, 8);
    SliceSame(m1, m2, z, 8, a + 8, 8);
  }

  lemma ClearedOver(m: Memory, m1: Memory, m2: Memory, a: nat, z: nat)
    requires a + HEADER_SIZE <= |m| == |m1| && a + 8 < z + HEADER_SIZE && z < a + 16
    requires ClearedThenLinked(m, m1, m2, z, FromLE(m1[a + 8..a + 16])) && z == FromLE(m[a + 8..a + 16])
    ensures FromLE(m2[a..a + 8]) == 0 || m2[a + FREE_OFFSET] == 0
  {
    hide FromLE;
    FromLEZeroed(m[a + 8..a + 16], m1[a + 8..a + 16]);
    if a < z + 8 {
      assert m1[a + FREE_OFFSET] == 0;
    } else {
      SliceSame(m1, m2, FromLE(m1[a + 8..a + 16]), 8, a, 8);
      FromLEZero(m1[a..a + 8]);
    }
  }

  /** The header a is cleared in part through its own link z, then written through what is left of the
      link: it never ends up as the free last header of a list. */
  lemma ClearedThroughLink(m: Memory, a: nat, z: nat, y: nat, v: nat)
    requires a + HEADER_SIZE <= |m| && z + HEADER_SIZE <= |m| && y + HEADER_SIZE <= |m| && v < U64
    requires z == HeaderAt(m, a).next != NULL && y == HeaderAt(ClearHeader(m, z), a).next
    ensures var h := HeaderAt(SetPrevious(ClearHeader(m, z), y, v), a);
      h.next != NULL || h.previous == NULL || !h.free
  {
    hide SetPrevious, HeaderWritten, FromLE;
    var m1, m2 := ClearHeader(m, z), SetPrevious(ClearHeader(m, z), y, v);
    StoreEffect(m, z, Zeros(HEADER_SIZE));
    PreviousStored(m1, y, v);
    assert m1[z..z + HEADER_SIZE] == Zeros(HEADER_SIZE);
    assert forall p :: z <= p < z + HEADER_SIZE ==> m1[p] == m1[z..z + HEADER_SIZE][p - z] == 0;
    assert SameOutside(m, m1, z, HEADER_SIZE);
    hide ClearHeader;
    assert ClearedThenLinked(m, m1, m2, z, y);
    if z + HEADER_SIZE <= a + 8 || a + 16 <= z {
      ClearedBeside(m, m1, m2, a, z);
    } else {
      ClearedOver(m, m1, m2, a, z);
    }
  }

  /** The closing stores of a split, whatever the new header's link is. */
  lemma LinkHeaderStores(m: Memory, hdr: nat, next: nat, need: nat) returns (m1: Memory, h: Header)
    requires LinkHeader(m, hdr, next, need).Done? && need < U64 && next < U64
    ensures next + HEADER_SIZE <= |m| && |m1| == |m|
    ensures var y, m2 := HeaderAt(m, next).next, LinkHeader(m, hdr, next, need).value;
      y + HEADER_SIZE <= |m| && m1 == SetPrevious(m, y, next) && HeaderWritten(m1, m2, hdr, h)
  {
    hide HeaderAt, SetPrevious, SetNext, SetSize, SetFree, ClearHeader, HeaderWritten;
    SmallMod(next, U64);
    SmallMod(need, U64);
    var y := HeaderAt(m, next).next;
    m1 := SetPrevious(m, y, next);
    WrittenHere(m, m1, y, HeaderAt(m, y).(previous := next));
    var m2 := SetSize(m1, hdr, need);
    var h1 := HeaderAt(m1, hdr).(size := need);
    h := h1.(next := next);
    WrittenHere(m1, m2, hdr, h1);
    WrittenTwice(m1, m2, SetNext(m2, hdr, next), hdr, h1, h);
  }

  lemma LastOfSplit(m: Memory, bs: seq<Block>, i: nat, need: nat)
    requires i + 1 == |bs| && need <= bs[i].size && Linked(m, Split(bs, i, need))
    ensures bs[i].addr + need + HEADER_SIZE <= |m|
    ensures var h := HeaderAt(m, bs[i].addr + need); h.previous == bs[i].addr && h.next == NULL && h.free
  {
    hide HeaderAt;
    var ss := Split(bs, i, need);
    assert HeaderAt(m, ss[i + 1].addr) == HeaderOf(ss, i + 1);
  }

  /** A split of the last block takes the bytes at NULL for its right neighbour.  When they look like a
      free header it is never done as documented. */
  lemma InsertMeetsFreeNull(m: Memory, bs: seq<Block>, lo: nat, hi: nat, i: nat, need: nat)
    requires Splittable(m, bs, lo, hi, i, need) && i + 1 == |bs| && HeaderAt(m, NULL).free
    ensures var r := InsertNewBlock(m, bs[i].addr, need);
      !(r.Done? && Linked(r.value, Split(bs, i, need)) && KeepsPayloads(m, r.value, Unmarked(bs, i), lo, hi))
  {
    hide HeaderAt, SetPrevious, SetNext, SetSize, SetFree, ClearHeader, HeaderWritten, Linked, Tiles, StartHeader,
      LinkHeader, SwallowFree, KeepsPayloads, KeepsAbove;
    var hdr, next, r := bs[i].addr, bs[i].addr + need, InsertNewBlock(m, bs[i].addr, need);
    TilesBelow(bs, lo, hi, i);
    var m1 := SplitStarts(m, bs, lo, hi, i, need);
    var n, low := Started(bs, i, need), HeaderAt(m, NULL);
    var m2 := SwallowedHeader(m1, next, NULL, n, low);
    var z, n2 := low.next % U64, n.(size := (n.size + low.size) % U64, next := low.next % U64);
    WrittenHere(m1, m2, next, n2);
    if r.Done? {
      var m3, zero := ClearHeader(m2, z), Header(NULL, NULL, 0, false);
      WrittenHere(m2, m3, z, zero);
      var m4, h := LinkHeaderStores(m3, hdr, next, need);
      WrittenReads(m4, r.value, hdr, h, next);
      WrittenReads(m4, r.value, hdr, h, NULL);
      if z == NULL {
        WrittenReads(m2, m3, NULL, zero, next);
        WrittenHere(m3, m4, NULL, zero.(previous := next));
        KeepsNullHeader(m, r.value, Unmarked(bs, i), lo, hi);
      } else if Linked(r.value, Split(bs, i, need)) {
        ClearedThroughLink(m2, next, z, HeaderAt(m3, next).next, next);
        LastOfSplit(r.value, bs, i, need);
      }
    }
  }

  // ---------------------------------------------------------------- tight fits

  /** However the split goes, the block being cut ends with size need and next at its end. */
  lemma LinkHeaderEnds(m: Memory, hdr: nat, next: nat, need: nat)
    requires LinkHeader(m, hdr, next, need).Done? && need < U64 && next < U64
    ensures var m' := LinkHeader(m, hdr, next, need).value;
      hdr + HEADER_SIZE <= |m'| && HeaderAt(m', hdr).size == need && HeaderAt(m', hdr).next == next
  {
    hide HeaderAt, SetPrevious, SetNext, SetSize, SetFree, ClearHeader, HeaderWritten;
    var m1 := PutPrevious(m, HeaderAt(m, next).next, next).value;
    var m2 := SetSize(m1, hdr, need);
    WrittenHere(m1, m2, hdr, HeaderAt(m1, hdr).(size := need));
    WrittenHere(m2, SetNext(m2, hdr, next), hdr, HeaderAt(m2, hdr).(next := next));
  }

  lemma SelfSwallow(m: Memory, a: nat, n: Header)
    requires a + HEADER_SIZE <= |m| && a < U64 && HeaderAt(m, a) == n && n.next == a && n.free && n.size == 0
    ensures SwallowFree(m, a).Done? && HeaderWritten(m, SwallowFree(m, a).value, a, Header(NULL, NULL, 0, false))
  {
    hide HeaderAt, SetPrevious, SetNext, SetSize, SetFree, ClearHeader, HeaderWritten;
    var m1 := SetSize(m, a, 0);
    WrittenHere(m, m1, a, n);
    var m2 := SetNext(m1, a, a);
    WrittenTwice(m, m1, m2, a, n, n);
    WrittenHere(m1, m2, a, n);
    WrittenTwice(m, m2, ClearHeader(m2, a), a, n, Header(NULL, NULL, 0, false));
  }

  /** On an exact fit the "new" header is the next block's header: it meets itself as a free
      neighbour, swallows itself and is cleared. */
  lemma ExactFitClearsNext(m: Memory, hdr: nat, next: nat, need: nat)
    requires Apart(hdr, next) && Apart(NULL, next) && Apart(NULL, hdr)
    requires hdr + HEADER_SIZE <= |m| && next + HEADER_SIZE <= |m|
    requires HeaderAt(m, hdr).next == next == hdr + need && HeaderAt(m, hdr).size == need && next < U64
    ensures var r := InsertNewBlock(m, hdr, need);
      r.Done? && |r.value| == |m| && HeaderAt(r.value, next) == Header(NULL, NULL, 0, false)
  {
    hide HeaderAt, SetPrevious, SetNext, SetSize, SetFree, ClearHeader, HeaderWritten, StartHeader, LinkHeader,
      SwallowFree;
    assert (hdr + need) % U64 == next;
    StartedHeader(m, hdr, next, need);
    var n, zero := Header(hdr, next, 0, true), Header(NULL, NULL, 0, false);
    var m1 := StartHeader(m, hdr, next, need).value;
    WrittenReads(m, m1, next, n, hdr);
    SelfSwallow(m1, next, n);
    var m2 := SwallowFree(m1, next).value;
    WrittenReads(m1, m2, next, zero, hdr);
    LinkedHeader(m2, hdr, next, need);
    var m3 := SetPrevious(m2, NULL, next);
    WrittenReads(m2, m3, NULL, HeaderAt(m2, NULL).(previous := next), next);
    var m4 := LinkHeader(m2, hdr, next, need).value;
    var h := HeaderAt(m2, hdr);
    WrittenReads(m3, m4, hdr, Header(h.previous, next, need, h.free), next);
  }

  /** Splitting without room for a header breaks the list. */
  lemma TightFitCorrupts(m: Memory, bs: seq<Block>, lo: nat, hi: nat, i: nat, need: nat)
    requires HEADER_SIZE <= lo && hi < U64 && hi <= |m| && Tiles(bs, lo, hi) && Linked(m, bs) && i < |bs|
    requires need <= bs[i].size < need + HEADER_SIZE
    ensures var r := InsertNewBlock(m, bs[i].addr, need); r.Done? ==> !Linked(r.value, bs)
  {
    hide HeaderAt, SetPrevious, SetNext, SetSize, SetFree, ClearHeader, HeaderWritten, StartHeader, LinkHeader,
      SwallowFree;
    var r, hdr := InsertNewBlock(m, bs[i].addr, need), bs[i].addr;
    TilesSpread(bs, lo, hi);
    AtBlock(m, bs, lo, hi, i);
    assert (hdr + need) % U64 == hdr + need;
    if r.Done? && Linked(r.value, bs) {
      LinkHeaderEnds(SwallowFree(StartHeader(m, hdr, hdr + need, need).value, hdr + need).value, hdr, hdr + need, need);
      AtBlock(r.value, bs, lo, hi, i);
      assert i + 1 < |bs| && need == bs[i].size;
      AtBlock(m, bs, lo, hi, i + 1);
      AtBlock(r.value, bs, lo, hi, i + 1);
      assert bs[i].End() == bs[i + 1].addr;
      ExactFitClearsNext(m, hdr, bs[i + 1].addr, need);
    }
  }
}
