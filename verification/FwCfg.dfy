/**
 The fw_cfg directory scan: big-endian records from a byte stream, matched by C-string name.
 */
module FwCfg {
  import opened Bytes
  import opened Arithmetic

  const NAME_SIZE: nat := 56
  const FILE_SIZE: nat := 64
  const FILE_DIR: nat := 0x19

  // ---------------------------------------------------------------- big-endian numbers

  function FromBE(s: seq<bv8>): nat {
    if |s| == 0 then 0 else FromBE(s[..|s| - 1]) * 256 + s[|s| - 1] as nat
  }

  function ToBE(v: nat, n: nat): (s: seq<bv8>)
    ensures |s| == n
    decreases n
  {
    if n == 0 then [] else ToBE(v / 256, n - 1) + [ByteOf(v % 256)]
  }

  lemma {:induction false} FromToBE(v: nat, n: nat)
    requires v < Pow256(n)
    ensures FromBE(ToBE(v, n)) == v
    decreases n
  {
    if n > 0 {
      FromToBE(v / 256, n - 1);
      assert ToBE(v, n)[..n - 1] == ToBE(v / 256, n - 1);
    }
  }

  function BSwap16(x: nat): nat { x % 256 * 256 + x / 256 }

  function BSwap32(x: nat): nat { BSwap16(x % U16) * U16 + BSwap16(x / U16) }

  lemma TwoBytes(s: seq<bv8>)
    requires |s| == 2
    ensures FromLE(s) == s[0] as nat + 256 * s[1] as nat
    ensures FromBE(s) == s[0] as nat * 256 + s[1] as nat
  {
    assert FromLE(s[1..]) == s[1] as nat;
    assert FromBE(s[..1]) == s[0] as nat;
  }

  /** Swapping the bytes of the little-endian reading gives the big-endian number. */
  lemma SwappedRead16(s: seq<bv8>)
    requires |s| == 2
    ensures BSwap16(FromLE(s)) == FromBE(s)
  {
    TwoBytes(s);
    hide FromLE, FromBE;
    var lo: nat, hi: nat := s[0] as nat, s[1] as nat;
    QuotientOf(hi, 256, lo);
  }

  /** Swapping four bytes swaps each half and the halves. */
  lemma SwapHalves(lo: nat, hi: nat)
    requires lo < U16
    ensures BSwap32(lo + U16 * hi) == BSwap16(lo) * U16 + BSwap16(hi)
  {
    hide BSwap16;
    QuotientOf(hi, U16, lo);
  }

  lemma TwoByteBound(s: seq<bv8>)
    requires |s| == 2
    ensures FromLE(s) < U16
  {
    FromLEBound(s);
    assert Pow256(2) == U16;
  }

  lemma FromLEHalves(s: seq<bv8>)
    requires |s| == 4
    ensures FromLE(s) == FromLE(s[..2]) + U16 * FromLE(s[2..])
  {
    assert s[1..][1..] == s[2..] && s[..2][1..] == s[1..2] && s[1..2][1..] == [];
    assert FromLE(s) == s[0] as nat + 256 * FromLE(s[1..]);
    assert FromLE(s[1..]) == s[1] as nat + 256 * FromLE(s[2..]);
    assert FromLE(s[..2]) == s[0] as nat + 256 * FromLE(s[1..2]);
    assert FromLE(s[1..2]) == s[1] as nat;
  }

  lemma FromBEHalves(s: seq<bv8>)
    requires |s| == 4
    ensures FromBE(s) == FromBE(s[..2]) * U16 + FromBE(s[2..])
  {
    assert s[..3][..2] == s[..2] && s[2..][..1] == s[2..3] && s[2..3][..0] == [];
    assert FromBE(s) == FromBE(s[..3]) * 256 + s[3] as nat;
    assert FromBE(s[..3]) == FromBE(s[..2]) * 256 + s[2] as nat;
    assert FromBE(s[2..]) == FromBE(s[2..3]) * 256 + s[3] as nat;
    assert FromBE(s[2..3]) == s[2] as nat;
  }

  lemma SwappedRead32(s: seq<bv8>)
    requires |s| == 4
    ensures BSwap32(FromLE(s)) == FromBE(s)
  {
    hide FromLE, FromBE, BSwap16, BSwap32;
    var lo, hi := s[..2], s[2..];
    FromLEHalves(s);
    FromBEHalves(s);
    TwoByteBound(lo);
    SwapHalves(FromLE(lo), FromLE(hi));
    SwappedRead16(lo);
    SwappedRead16(hi);
  }

  // ---------------------------------------------------------------- C strings

  /** The C string in a buffer of at most n bytes: everything before the first NUL. */
  function CString(s: seq<bv8>, n: nat): seq<bv8>
    decreases n
  {
    if n == 0 || |s| == 0 || s[0] == 0 then [] else [s[0]] + CString(s[1..], n - 1)
  }

  /** Reading n bytes, or up to a NUL, stays inside the buffer. */
  predicate Readable(s: seq<bv8>, n: nat) { n <= |s| || 0 in s }

  /** A C string that goes on past position i, split there. */
  lemma {:induction false} CStringSplit(s: seq<bv8>, n: nat, i: nat)
    requires i <= n && i <= |s| && 0 !in s[..i]
    ensures CString(s, n) == s[..i] + CString(s[i..], n - i)
    decreases i
  {
    if 0 < i {
      assert s[0] == s[..i][0] && s[1..][..i - 1] == s[..i][1..] && s[1..][i - 1..] == s[i..];
      CStringSplit(s[1..], n - 1, i - 1);
    } else {
      assert s[0..] == s;
    }
  }

  /** The positions below n at which two strings differ while neither has ended before. */
  function Differing(s1: seq<bv8>, s2: seq<bv8>, n: nat): set<nat> {
    set i: nat | i < n && i < |s1| && i < |s2| && 0 !in s1[..i] && 0 !in s2[..i] && s1[i] != s2[i]
  }

  lemma DifferingNext(s1: seq<bv8>, s2: seq<bv8>, i: nat)
    requires i < |s1| && i < |s2| && 0 !in s1[..i] && 0 !in s2[..i]
    ensures |Differing(s1, s2, i + 1)| == |Differing(s1, s2, i)| + (if s1[i] != s2[i] then 1 else 0)
  {
    var before := Differing(s1, s2, i);
    assert Differing(s1, s2, i + 1) == if s1[i] != s2[i] then before + {i} else before;
  }

  lemma DifferingEnds(s1: seq<bv8>, s2: seq<bv8>, n: nat, i: nat)
    requires i < n && i < |s1| && i < |s2| && (s1[i] == 0 || s2[i] == 0)
    ensures Differing(s1, s2, n) == Differing(s1, s2, i + 1)
  {
    forall j: nat | i < j && j < |s1| && j < |s2| ensures 0 in s1[..j] || 0 in s2[..j] {
      assert s1[..j][i] == s1[i] && s2[..j][i] == s2[i];
    }
  }

  lemma NoneDiffering(s1: seq<bv8>, s2: seq<bv8>)
    ensures Differing(s1, s2, 0) == {}
  {
  }

  lemma InsideBuffer(s: seq<bv8>, n: nat, i: nat)
    requires Readable(s, n) && i < n && i <= |s| && 0 !in s[..i]
    ensures i < |s|
  {
  }

  /** Once one of the strings ends, what has been read decides. */
  lemma CStringsDecided(s1: seq<bv8>, s2: seq<bv8>, n: nat, i: nat)
    requires i < n && i < |s1| && i < |s2| && 0 !in s1[..i] && 0 !in s2[..i] && (s1[i] == 0 || s2[i] == 0)
    ensures CString(s1, n) == CString(s2, n) <==> s1[..i] == s2[..i] && s1[i] == s2[i]
  {
    CStringSplit(s1, n, i);
    CStringSplit(s2, n, i);
    var t1, t2 := CString(s1[i..], n - i), CString(s2[i..], n - i);
    assert (t1 == [] <==> s1[i] == 0) && (t2 == [] <==> s2[i] == 0);
    assert CString(s1, n)[..i] == s1[..i] && CString(s2, n)[..i] == s2[..i];
    assert CString(s1, n)[i..] == t1 && CString(s2, n)[i..] == t2;
  }

  /** strncmp counts the bytes that differ; the count is zero exactly for equal C strings. */
  method Strncmp(s1: seq<bv8>, s2: seq<bv8>, n: nat) returns (ret: nat)
    requires Readable(s1, n) && Readable(s2, n)
    ensures ret == |Differing(s1, s2, n)|
    ensures ret == 0 <==> CString(s1, n) == CString(s2, n)
  {
    hide Differing;
    ret := 0;
    NoneDiffering(s1, s2);
    for i := 0 to n
      invariant i <= |s1| && i <= |s2| && 0 !in s1[..i] && 0 !in s2[..i]
      invariant ret == |Differing(s1, s2, i)| && (ret == 0 <==> s1[..i] == s2[..i])
    {
      InsideBuffer(s1, n, i);
      InsideBuffer(s2, n, i);
      DifferingNext(s1, s2, i);
      assert s1[..i + 1] == s1[..i] + [s1[i]] && s2[..i + 1] == s2[..i] + [s2[i]];
      if s1[i] != s2[i] {
        ret := ret + 1;
      }
      if s1[i] == 0 || s2[i] == 0 {
        DifferingEnds(s1, s2, n, i);
        CStringsDecided(s1, s2, n, i);
        return;
      }
    }
    CStringSplit(s1, n, n);
    CStringSplit(s2, n, n);
    assert CString(s1, n) == s1[..n] && CString(s2, n) == s2[..n];
  }

  // ---------------------------------------------------------------- directory records

  /** fwcfg_file, its numbers decoded. */
  datatype File = File(size: nat, select: nat, reserved: nat, name: seq<bv8>)

  predicate ValidFile(f: File) {
    f.size < U32 && f.select < U16 && f.reserved < U16 && |f.name| == NAME_SIZE
  }

  /** One 64-byte entry of the directory. */
  function Serialize(f: File): (s: seq<bv8>)
    requires ValidFile(f)
    ensures |s| == FILE_SIZE
  {
    ToBE(f.size, 4) + ToBE(f.select, 2) + ToBE(f.reserved, 2) + f.name
  }

  function SerializeAll(dir: seq<File>): (s: seq<bv8>)
    requires forall f :: f in dir ==> ValidFile(f)
    ensures |s| == FILE_SIZE * |dir|
  {
    if |dir| == 0 then [] else Serialize(dir[0]) + SerializeAll(dir[1..])
  }

  function Directory(dir: seq<File>): seq<bv8>
    requires forall f :: f in dir ==> ValidFile(f)
  {
    ToBE(|dir|, 4) + SerializeAll(dir)
  }

  /** The fields of a record buffer after the scan has swapped size and select; reserved stays as read. */
  function Decode(file: seq<bv8>): File
    requires |file| == FILE_SIZE
  {
    File(BSwap32(FromLE(file[..4])), BSwap16(FromLE(file[4..6])), FromLE(file[6..8]), file[8..])
  }

  /** The record the scan hands out for an entry. */
  function Found(f: File): File { f.(reserved := BSwap16(f.reserved)) }

  lemma NumberDecoded32(n: nat)
    requires n < U32
    ensures BSwap32(FromLE(ToBE(n, 4))) == n
  {
    SwappedRead32(ToBE(n, 4));
    assert Pow256(4) == U32;
    FromToBE(n, 4);
  }

  lemma NumberDecoded16(n: nat)
    requires n < U16
    ensures BSwap16(FromLE(ToBE(n, 2))) == n && FromLE(ToBE(n, 2)) == BSwap16(n)
  {
    var s := ToBE(n, 2);
    SwappedRead16(s);
    assert Pow256(2) == U16;
    FromToBE(n, 2);
    TwoBytes(s);
    hide ToBE, FromLE, FromBE;
    QuotientOf(s[0] as nat, 256, s[1] as nat);
  }

  /** Decoding an entry gives the record back, up to the untouched reserved field. */
  lemma DecodeSerialized(f: File)
    requires ValidFile(f)
    ensures Decode(Serialize(f)) == Found(f)
  {
    var s := Serialize(f);
    assert s[..4] == ToBE(f.size, 4) && s[4..6] == ToBE(f.select, 2);
    assert s[6..8] == ToBE(f.reserved, 2) && s[8..] == f.name;
    hide ToBE, FromBE, FromLE, BSwap32;
    NumberDecoded32(f.size);
    NumberDecoded16(f.select);
    NumberDecoded16(f.reserved);
  }

  // ---------------------------------------------------------------- records byte by byte

  /** Two and four bytes in big-endian order, with their weights. */
  lemma TwoBytesBE(s: seq<bv8>)
    requires |s| == 2
    ensures FromBE(s) == s[0] as nat * 0x100 + s[1] as nat
  {
    TwoBytes(s);
  }

  lemma FourBytesBE(s: seq<bv8>)
    requires |s| == 4
    ensures FromBE(s) == s[0] as nat * 0x100_0000 + s[1] as nat * 0x1_0000 + s[2] as nat * 0x100 + s[3] as nat
  {
    FromBEHalves(s);
    hide FromBE;
    TwoBytesBE(s[..2]);
    TwoBytesBE(s[2..]);
  }

  /** What the scan makes of 64 bytes: size from 0, select from 4, both big-endian, the name from 8; the two
      bytes between are not swapped. */
  lemma DecodeInBytes(b: seq<bv8>)
    requires |b| == 64
    ensures Decode(b).size
         == b[0] as nat * 0x100_0000 + b[1] as nat * 0x1_0000 + b[2] as nat * 0x100 + b[3] as nat
    ensures Decode(b).select == b[4] as nat * 0x100 + b[5] as nat
    ensures Decode(b).reserved == b[6] as nat + 0x100 * b[7] as nat
    ensures Decode(b).name == b[8..64]
  {
    SwappedRead32(b[..4]);
    SwappedRead16(b[4..6]);
    hide FromLE, FromBE, BSwap16, BSwap32;
    FourBytesBE(b[..4]);
    TwoBytesBE(b[4..6]);
    TwoBytesLE(b[6..8]);
  }

  lemma FourWritten(n: nat, s: seq<bv8>)
    requires n < U32 && s == ToBE(n, 4)
    ensures |s| == 4
    ensures n == s[0] as nat * 0x100_0000 + s[1] as nat * 0x1_0000 + s[2] as nat * 0x100 + s[3] as nat
  {
    assert Pow256(4) == U32;
    FromToBE(n, 4);
    hide ToBE, FromBE, Pow256;
    FourBytesBE(s);
  }

  lemma TwoWritten(n: nat, s: seq<bv8>)
    requires n < U16 && s == ToBE(n, 2)
    ensures |s| == 2 && n == s[0] as nat * 0x100 + s[1] as nat
  {
    assert Pow256(2) == U16;
    FromToBE(n, 2);
    hide ToBE, FromBE, Pow256;
    TwoBytesBE(s);
  }

  /** The 64 bytes of an entry, as numbers. */
  lemma SerializeInBytes(f: File)
    requires ValidFile(f)
    ensures var b := Serialize(f);
      && |b| == 64
      && f.size == b[0] as nat * 0x100_0000 + b[1] as nat * 0x1_0000 + b[2] as nat * 0x100 + b[3] as nat
      && f.select == b[4] as nat * 0x100 + b[5] as nat && f.reserved == b[6] as nat * 0x100 + b[7] as nat
      && b[8..64] == f.name
  {
    hide ToBE;
    var b := Serialize(f);
    assert b[..4] == ToBE(f.size, 4) && b[4..6] == ToBE(f.select, 2) && b[6..8] == ToBE(f.reserved, 2);
    assert b[8..64] == f.name;
    hide Serialize;
    FourWritten(f.size, b[..4]);
    TwoWritten(f.select, b[4..6]);
    TwoWritten(f.reserved, b[6..8]);
  }

  lemma SliceWithin(s: seq<bv8>, a: nat, i: nat, j: nat)
    requires i <= j && a + j <= |s|
    ensures s[a..][i..j] == s[a + i..a + j]
  {
  }

  lemma EntriesSplit(dir: seq<File>)
    requires |dir| > 0 && forall f :: f in dir ==> ValidFile(f)
    ensures SerializeAll(dir)[..64] == Serialize(dir[0]) && SerializeAll(dir)[64..] == SerializeAll(dir[1..])
  {
    hide Serialize;
  }

  lemma {:induction false} EntryBytes(dir: seq<File>, j: nat)
    requires (forall f :: f in dir ==> ValidFile(f)) && j < |dir|
    ensures SerializeAll(dir)[64 * j..64 * j + 64] == Serialize(dir[j])
  {
    hide Serialize, SerializeAll, ValidFile;
    EntriesSplit(dir);
    if 0 < j {
      EntryBytes(dir[1..], j - 1);
      SliceWithin(SerializeAll(dir), 64, 64 * (j - 1), 64 * j);
    }
  }

  lemma DirectoryParts(dir: seq<File>)
    requires forall f :: f in dir ==> ValidFile(f)
    ensures var b := Directory(dir);
      |b| == 4 + 64 * |dir| && b[..4] == ToBE(|dir|, 4) && b[4..] == SerializeAll(dir)
  {
    hide ToBE, SerializeAll;
  }

  /** The item the directory is read from: four bytes of count, big-endian, then entry j at 4 + 64 * j. */
  lemma DirectoryInBytes(dir: seq<File>, j: nat)
    requires |dir| < 0x1_0000_0000 && (forall f :: f in dir ==> ValidFile(f)) && j < |dir|
    ensures var b := Directory(dir);
      && |b| == 4 + 64 * |dir|
      && |dir| == b[0] as nat * 0x100_0000 + b[1] as nat * 0x1_0000 + b[2] as nat * 0x100 + b[3] as nat
      && b[4 + 64 * j..4 + 64 * j + 64] == Serialize(dir[j])
  {
    hide ToBE, SerializeAll, Directory, Serialize, ValidFile;
    var b := Directory(dir);
    DirectoryParts(dir);
    FourWritten(|dir|, b[..4]);
    EntryBytes(dir, j);
    SliceWithin(b, 4, 64 * j, 64 * j + 64);
  }

  /** The record handed out keeps size, select and name. */
  lemma FoundKeeps(f: File)
    ensures Found(f).size == f.size && Found(f).select == f.select && Found(f).name == f.name
  {
  }

  // ---------------------------------------------------------------- the device and the scan

  /** The interface: selecting an item rewinds to its first byte, each read takes the next one, and
      reads past the end give zero. */
  class Stream {
    const item: nat -> seq<bv8>
    var selected: nat
    var offset: nat

    constructor (item: nat -> seq<bv8>)
      ensures this.item == item
    {
      this.item := item;
      selected, offset := 0, 0;
    }

    /** What is still to be read. */
    function Rest(): seq<bv8>
      reads this
    {
      if offset <= |item(selected)| then item(selected)[offset..] else []
    }

    method Select(key: nat)
      modifies this
      ensures Rest() == item(key)
    {
      selected, offset := key, 0;
    }

    method Inb() returns (b: bv8)
      modifies this
      ensures old(Rest()) != [] ==> b == old(Rest())[0] && Rest() == old(Rest())[1..]
    {
      b := if offset < |item(selected)| then item(selected)[offset] else 0;
      offset := offset + 1;
    }

    /** qemu_fwcfg_insb fills a buffer byte by byte. */
    method Insb(dst: array<bv8>)
      requires dst.Length <= |Rest()|
      modifies this, dst
      ensures dst[..] == old(Rest())[..dst.Length] && Rest() == old(Rest())[dst.Length..]
    {
      for i := 0 to dst.Length
        invariant dst.Length - i <= |Rest()| && Rest() == old(Rest())[i..]
        invariant dst[..i] == old(Rest())[..i]
      {
        dst[i] := Inb();
        assert dst[..i + 1] == dst[..i] + [dst[i]];
      }
    }
  }

  function CName(name: seq<bv8>): seq<bv8> { CString(name, NAME_SIZE) }

  /** The position of the first entry with the given name; |dir| when there is none. */
  function FirstNamed(dir: seq<File>, name: seq<bv8>): (i: nat)
    ensures i <= |dir| && (i < |dir| ==> CName(dir[i].name) == CName(name))
    ensures forall j :: 0 <= j < i ==> CName(dir[j].name) != CName(name)
  {
    if |dir| == 0 || CName(dir[0].name) == CName(name) then 0 else 1 + FirstNamed(dir[1..], name)
  }

  lemma {:induction false} CStringsDiffer(a: seq<bv8>, b: seq<bv8>, n: nat, k: nat)
    requires k < n && k < |a| && k < |b| && 0 !in a[..k] && a[..k] == b[..k] && a[k] != b[k]
    ensures CString(a, n) != CString(b, n)
  {
    CStringSplit(a, n, k);
    CStringSplit(b, n, k);
    var t1, t2 := CString(a[k..], n - k), CString(b[k..], n - k);
    assert (t1 == [] || t1[0] == a[k]) && (t2 == [] || t2[0] == b[k]);
    assert CString(a, n)[k..] == t1 && CString(b, n)[k..] == t2;
    if a[k] == 0 { assert t1 == [] && t2 != []; } else { assert t1 != [] && t1[0] == a[k]; }
  }

  lemma {:induction false} CStringsAgree(a: seq<bv8>, b: seq<bv8>, n: nat)
    requires Readable(a, n) && Readable(b, n)
    requires forall k :: 0 <= k < n && k < |a| && k < |b| && 0 !in a[..k] && a[..k] == b[..k] ==> a[k] == b[k]
    ensures CString(a, n) == CString(b, n)
    decreases n
  {
    if 0 < n {
      assert a[..0] == b[..0] == [];
      assert a[0] == b[0];
      if a[0] != 0 {
        forall k | 0 <= k < n - 1 && k < |a[1..]| && k < |b[1..]| && 0 !in a[1..][..k] && a[1..][..k] == b[1..][..k]
          ensures a[1..][k] == b[1..][k]
        {
          assert a[..k + 1] == [a[0]] + a[1..][..k] && b[..k + 1] == [b[0]] + b[1..][..k];
        }
        CStringsAgree(a[1..], b[1..], n - 1);
      }
    }
  }

  /** Two names are the same when no byte among the first 56, up to the end of the string, tells them apart. */
  lemma SameName(a: seq<bv8>, b: seq<bv8>)
    requires Readable(a, 56) && Readable(b, 56)
    ensures CName(a) == CName(b) <==>
            forall k :: 0 <= k < 56 && k < |a| && k < |b| && 0 !in a[..k] && a[..k] == b[..k] ==> a[k] == b[k]
  {
    if CName(a) == CName(b) {
      forall k | 0 <= k < 56 && k < |a| && k < |b| && 0 !in a[..k] && a[..k] == b[..k] ensures a[k] == b[k] {
        if a[k] != b[k] { CStringsDiffer(a, b, 56, k); }
      }
    }
    if forall k :: 0 <= k < 56 && k < |a| && k < |b| && 0 !in a[..k] && a[..k] == b[..k] ==> a[k] == b[k] {
      CStringsAgree(a, b, 56);
    }
  }

  datatype Option<T> = None | Some(value: T)

  /** Reading the next record of the directory. */
  method ReadEntry(s: Stream, file: array<bv8>, ghost rest: seq<File>)
    requires file.Length == FILE_SIZE && (forall f :: f in rest ==> ValidFile(f))
    requires |rest| > 0 && SerializeAll(rest) <= s.Rest()
    modifies s, file
    ensures file[8..] == rest[0].name && Decode(file[..]) == Found(rest[0])
    ensures SerializeAll(rest[1..]) <= s.Rest()
  {
    hide Decode, ToBE;
    ghost var all := s.Rest();
    s.Insb(file);
    assert file[..] == all[..FILE_SIZE] == Serialize(rest[0]);
    DecodeSerialized(rest[0]);
    assert file[8..] == file[..][8..];
    assert SerializeAll(rest)[FILE_SIZE..] == SerializeAll(rest[1..]);
    assert SerializeAll(rest)[FILE_SIZE..] <= all[FILE_SIZE..];
  }

  /** Reading the count in front of it. */
  method ReadCount(s: Stream, ghost dir: seq<File>) returns (cnt: nat)
    requires |dir| < U32 && (forall f :: f in dir ==> ValidFile(f)) && Directory(dir) <= s.Rest()
    modifies s
    ensures cnt == |dir| && SerializeAll(dir) <= s.Rest()
  {
    hide ToBE, BSwap32, SerializeAll;
    var count := new bv8[4];
    ghost var all := s.Rest();
    s.Insb(count);
    assert count[..] == all[..4] == Directory(dir)[..4] == ToBE(|dir|, 4);
    assert Directory(dir)[4..] == SerializeAll(dir) && Directory(dir)[4..] <= all[4..];
    NumberDecoded32(|dir|);
    cnt := BSwap32(FromLE(count[..]));
  }

  lemma NameReadable(f: File)
    requires ValidFile(f)
    ensures Readable(f.name, NAME_SIZE)
  {
  }

  /** The scan returns the first entry with that name, size and select decoded, and NULL exactly when
      the record cannot be allocated or there is no such entry. */
  method FindFileEntry(s: Stream, name: seq<bv8>, haveRecord: bool, ghost dir: seq<File>) returns (r: Option<File>)
    requires Readable(name, NAME_SIZE)
    requires |dir| < U32 && (forall f :: f in dir ==> ValidFile(f))
    requires Directory(dir) <= s.item(0x19)
    modifies s
    ensures var i := FirstNamed(dir, name);
      r == if haveRecord && i < |dir| then Some(Found(dir[i])) else None
    ensures r.Some? ==>
      var f := dir[FirstNamed(dir, name)];
      r.value.size == f.size && r.value.select == f.select && r.value.name == f.name
  {
    hide SerializeAll, Directory, CString, Decode, Readable;
    if !haveRecord {
      return None;
    }
    var file := new bv8[FILE_SIZE];
    s.Select(FILE_DIR);
    var cnt := ReadCount(s, dir);
    ghost var rest := dir;
    for i := 0 to cnt
      invariant i <= |dir| && rest == dir[i..] && SerializeAll(rest) <= s.Rest()
      invariant FirstNamed(dir, name) == i + FirstNamed(rest, name)
    {
      ReadEntry(s, file, rest);
      NameReadable(rest[0]);
      var differ := Strncmp(file[8..], name, NAME_SIZE);
      if differ == 0 {
        return Some(Decode(file[..]));
      }
      rest := rest[1..];
    }
    return None;
  }
}
