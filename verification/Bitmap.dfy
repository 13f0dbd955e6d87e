/**
 A bitmap stored in memory at address bm, one bit an entry, read as the set of its members.
 */
module Bitmap {
  import opened Bytes

  function BitmapSize(n: nat): nat { (n + 7) / 8 }

  function BitmapIdx(entry: nat): nat { entry / 8 }

  function Mask(k: nat): bv8
    requires k < 8
  {
    1 << k
  }

  function BitmapBit(entry: nat): bv8 { Mask(entry % 8) }

  predicate TestBit(b: bv8, entry: nat) { b & BitmapBit(entry) != 0 }

  function WithBit(b: bv8, entry: nat): bv8 { b | BitmapBit(entry) }

  function WithoutBit(b: bv8, entry: nat): bv8 { b & !BitmapBit(entry) }

  predicate BitmapGet(m: Memory, bm: nat, entry: nat)
    requires bm + BitmapIdx(entry) < |m|
  {
    TestBit(m[bm + BitmapIdx(entry)], entry)
  }

  function Set(m: Memory, bm: nat, entry: nat): Memory
    requires bm + BitmapIdx(entry) < |m|
  {
    m[bm + BitmapIdx(entry) := WithBit(m[bm + BitmapIdx(entry)], entry)]
  }

  function Clear(m: Memory, bm: nat, entry: nat): Memory
    requires bm + BitmapIdx(entry) < |m|
  {
    m[bm + BitmapIdx(entry) := WithoutBit(m[bm + BitmapIdx(entry)], entry)]
  }

  method BitmapSet(ram: array<bv8>, bm: nat, entry: nat)
    requires bm + BitmapIdx(entry) < ram.Length
    modifies ram
    ensures ram[..] == Set(old(ram[..]), bm, entry)
  {
    ram[bm + BitmapIdx(entry)] := ram[bm + BitmapIdx(entry)] | BitmapBit(entry);
  }

  method BitmapClear(ram: array<bv8>, bm: nat, entry: nat)
    requires bm + BitmapIdx(entry) < ram.Length
    modifies ram
    ensures ram[..] == Clear(old(ram[..]), bm, entry)
  {
    ram[bm + BitmapIdx(entry)] := ram[bm + BitmapIdx(entry)] & !BitmapBit(entry);
  }

  /** The set a bitmap of n entries stands for. */
  function Members(m: Memory, bm: nat, n: nat): (s: set<nat>)
    requires bm + BitmapSize(n) <= |m|
  {
    set e: nat | e < n && BitmapGet(m, bm, e)
  }

  lemma BitOf(b: bv8, k: nat)
    requires k < 8
    ensures b & Mask(k) != 0 <==> (b >> k) & 1 == 1
  {
  }

  /** Entry e is bit e % 8, counted from the least significant, of byte e / 8. */
  lemma EntryIsBit(m: Memory, bm: nat, e: nat)
    requires bm + e / 8 < |m|
    ensures BitmapGet(m, bm, e) <==> (m[bm + e / 8] >> (e % 8)) & 1 == 1
  {
    BitOf(m[bm + e / 8], e % 8);
  }

  /** Its weight is the power of two. */
  lemma EntryWeight(e: nat)
    ensures BitmapBit(e) as nat == [1, 2, 4, 8, 16, 32, 64, 128][e % 8]
  {
    assert Mask(0) == 1 && Mask(1) == 2 && Mask(2) == 4 && Mask(3) == 8;
    assert Mask(4) == 16 && Mask(5) == 32 && Mask(6) == 64 && Mask(7) == 128;
    hide Mask;
  }

  lemma SetMask(b: bv8, j: nat, k: nat)
    requires j < 8 && k < 8
    ensures (b | Mask(k)) & Mask(j) != 0 <==> j == k || b & Mask(j) != 0
  {
  }

  lemma ClearMask(b: bv8, j: nat, k: nat)
    requires j < 8 && k < 8
    ensures (b & !Mask(k)) & Mask(j) != 0 <==> j != k && b & Mask(j) != 0
  {
  }

  lemma SetLaw(b: bv8, e: nat, entry: nat)
    ensures TestBit(WithBit(b, entry), e) <==> e % 8 == entry % 8 || TestBit(b, e)
  {
    var j, k := e % 8, entry % 8;
    SetMask(b, j, k);
    assert BitmapBit(e) == Mask(j) && BitmapBit(entry) == Mask(k);
    hide Mask, BitmapBit;
  }

  lemma ClearLaw(b: bv8, e: nat, entry: nat)
    ensures TestBit(WithoutBit(b, entry), e) <==> e % 8 != entry % 8 && TestBit(b, e)
  {
    var j, k := e % 8, entry % 8;
    ClearMask(b, j, k);
    assert BitmapBit(e) == Mask(j) && BitmapBit(entry) == Mask(k);
    hide Mask, BitmapBit;
  }

  /** Setting or clearing one entry, seen from any entry. */
  lemma EntryAfter(m: Memory, bm: nat, entry: nat, e: nat)
    requires bm + BitmapIdx(entry) < |m| && bm + BitmapIdx(e) < |m|
    ensures BitmapGet(Set(m, bm, entry), bm, e) <==> e == entry || BitmapGet(m, bm, e)
    ensures BitmapGet(Clear(m, bm, entry), bm, e) <==> e != entry && BitmapGet(m, bm, e)
  {
    hide TestBit, WithBit, WithoutBit;
    SetLaw(m[bm + BitmapIdx(entry)], e, entry);
    ClearLaw(m[bm + BitmapIdx(entry)], e, entry);
  }

  /** Setting an entry adds that one member, across all bytes. */
  lemma SetAdds(m: Memory, bm: nat, n: nat, entry: nat)
    requires bm + BitmapSize(n) <= |m| && entry < n
    ensures Members(Set(m, bm, entry), bm, n) == Members(m, bm, n) + {entry}
  {
    hide TestBit, WithBit;
    forall e: nat | e < n ensures BitmapGet(Set(m, bm, entry), bm, e) <==> e == entry || BitmapGet(m, bm, e) {
      EntryAfter(m, bm, entry, e);
    }
  }

  /** Clearing an entry removes that one member. */
  lemma ClearRemoves(m: Memory, bm: nat, n: nat, entry: nat)
    requires bm + BitmapSize(n) <= |m| && entry < n
    ensures Members(Clear(m, bm, entry), bm, n) == Members(m, bm, n) - {entry}
  {
    hide TestBit, WithoutBit;
    forall e: nat | e < n ensures BitmapGet(Clear(m, bm, entry), bm, e) <==> e != entry && BitmapGet(m, bm, e) {
      EntryAfter(m, bm, entry, e);
    }
  }

  /** bitmap_size is the least number of bytes that makes every entry below n addressable. */
  lemma BitmapSizeIsLeast(n: nat, bytes: nat)
    ensures BitmapSize(n) <= bytes <==> forall e: nat :: e < n ==> BitmapIdx(e) < bytes
  {
    if 0 < n && (forall e: nat :: e < n ==> BitmapIdx(e) < bytes) {
      assert BitmapIdx(n - 1) < bytes;
    }
  }
}
