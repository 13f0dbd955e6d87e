/**
 The memory_header structure inside flat memory: two 64-bit links, a 64-bit size and a flag byte,
 padded to 32 bytes.
 */
module Headers {
  import opened Arithmetic
  import opened Bytes
  import opened Blocks

  const FREE_OFFSET: nat := 24
  const NULL: nat := 0

  datatype Header = Header(previous: nat, next: nat, size: nat, free: bool)

  function HeaderAt(m: Memory, a: nat): Header
    requires a + HEADER_SIZE <= |m|
  {
    Header(FromLE(m[a..a + 8]), FromLE(m[a + 8..a + 16]), FromLE(m[a + 16..a + 24]), m[a + FREE_OFFSET] != 0)
  }

  /** The 64-bit number at address a, byte by byte. */
  function Word(m: Memory, a: nat): nat
    requires a + 8 <= |m|
  {
    m[a] as nat + 0x100 * m[a + 1] as nat + 0x1_0000 * m[a + 2] as nat + 0x100_0000 * m[a + 3] as nat
    + 0x1_0000_0000 * m[a + 4] as nat + 0x100_0000_0000 * m[a + 5] as nat
    + 0x1_0000_0000_0000 * m[a + 6] as nat + 0x100_0000_0000_0000 * m[a + 7] as nat
  }

  lemma WordRead(m: Memory, a: nat)
    requires a + 8 <= |m|
    ensures FromLE(m[a..a + 8]) == Word(m, a)
  {
    EightBytesLE(m[a..a + 8]);
  }

  /** A header is 32 bytes: previous at 0, next at 8, size at 16, the free flag at 24. */
  lemma HeaderLayout(m: Memory, a: nat)
    requires a + 32 <= |m|
    ensures HeaderAt(m, a) == Header(Word(m, a), Word(m, a + 8), Word(m, a + 16), m[a + 24] != 0)
  {
    WordRead(m, a);
    WordRead(m, a + 8);
    WordRead(m, a + 16);
  }

  lemma LinkBound(m: Memory, a: nat)
    requires a + HEADER_SIZE <= |m|
    ensures HeaderAt(m, a).next < U64
  {
    FromLEBound(m[a + 8..a + 16]);
    assert Pow256(8) == U64;
  }

  predicate Apart(a: nat, b: nat) { a + HEADER_SIZE <= b || b + HEADER_SIZE <= a }

  /** m' differs from m only inside the header at a, which now reads h. */
  ghost predicate HeaderWritten(m: Memory, m': Memory, a: nat, h: Header) {
    && SameOutside(m, m', a, HEADER_SIZE)
    && a + HEADER_SIZE <= |m'| && HeaderAt(m', a) == h
    && forall b: nat :: b + HEADER_SIZE <= |m| && Apart(a, b) ==> HeaderAt(m', b) == HeaderAt(m, b)
  }

  /** What a header store leaves at a and at another header b. */
  lemma WrittenReads(m: Memory, m': Memory, a: nat, h: Header, b: nat)
    requires HeaderWritten(m, m', a, h)
    requires b + HEADER_SIZE <= |m| && Apart(a, b)
    ensures |m'| == |m| && a + HEADER_SIZE <= |m| && HeaderAt(m', a) == h && HeaderAt(m', b) == HeaderAt(m, b)
  {
  }

  lemma WrittenHere(m: Memory, m': Memory, a: nat, h: Header)
    requires HeaderWritten(m, m', a, h)
    ensures |m'| == |m| && a + HEADER_SIZE <= |m| && HeaderAt(m', a) == h
  {
  }

  /** Two stores into one header act as one. */
  lemma WrittenTwice(m: Memory, m1: Memory, m2: Memory, a: nat, h1: Header, h2: Header)
    requires HeaderWritten(m, m1, a, h1) && HeaderWritten(m1, m2, a, h2)
    ensures HeaderWritten(m, m2, a, h2)
  {
    hide HeaderAt;
  }

  /** A header outside the changed bytes reads as before. */
  lemma HeaderKept(m: Memory, m': Memory, p: nat, n: nat, b: nat)
    requires SameOutside(m, m', p, n) && b + HEADER_SIZE <= |m|
    requires b + HEADER_SIZE <= p || p + n <= b
    ensures HeaderAt(m', b) == HeaderAt(m, b)
  {
    SliceSame(m, m', p, n, b, 8);
    SliceSame(m, m', p, n, b + 8, 8);
    SliceSame(m, m', p, n, b + 16, 8);
  }

  lemma HeadersApartSame(m: Memory, m': Memory, a: nat)
    requires SameOutside(m, m', a, HEADER_SIZE)
    ensures forall b: nat :: b + HEADER_SIZE <= |m| && Apart(a, b) ==> HeaderAt(m', b) == HeaderAt(m, b)
  {
    hide HeaderAt;
    forall b: nat | b + HEADER_SIZE <= |m| && Apart(a, b) ensures HeaderAt(m', b) == HeaderAt(m, b) {
      HeaderKept(m, m', a, HEADER_SIZE, b);
    }
  }

  lemma FieldEffect(m: Memory, a: nat, off: nat, v: nat)
    requires a + HEADER_SIZE <= |m| && v < U64 && off in {0, 8, 16}
    ensures HeaderWritten(m, Store(m, a + off, ToLE(v, 8)), a,
        if off == 0 then HeaderAt(m, a).(previous := v)
        else if off == 8 then HeaderAt(m, a).(next := v)
        else HeaderAt(m, a).(size := v))
  {
    hide ToLE, FromLE;
    var m' := Store(m, a + off, ToLE(v, 8));
    FromToLE(v, 8);
    StoreEffect(m, a + off, ToLE(v, 8));
    assert SameOutside(m, m', a, HEADER_SIZE);
    HeadersApartSame(m, m', a);
    if off != 0 { SliceSame(m, m', a + off, 8, a, 8); }
    if off != 8 { SliceSame(m, m', a + off, 8, a + 8, 8); }
    if off != 16 { SliceSame(m, m', a + off, 8, a + 16, 8); }
  }

  function SetPrevious(m: Memory, a: nat, v: nat): (m': Memory)
    requires a + HEADER_SIZE <= |m| && v < U64
    ensures HeaderWritten(m, m', a, HeaderAt(m, a).(previous := v))
  {
    FieldEffect(m, a, 0, v);
    Store(m, a, ToLE(v, 8))
  }

  function SetNext(m: Memory, a: nat, v: nat): (m': Memory)
    requires a + HEADER_SIZE <= |m| && v < U64
    ensures HeaderWritten(m, m', a, HeaderAt(m, a).(next := v))
  {
    FieldEffect(m, a, 8, v);
    Store(m, a + 8, ToLE(v, 8))
  }

  function SetSize(m: Memory, a: nat, v: nat): (m': Memory)
    requires a + HEADER_SIZE <= |m| && v < U64
    ensures HeaderWritten(m, m', a, HeaderAt(m, a).(size := v))
  {
    FieldEffect(m, a, 16, v);
    Store(m, a + 16, ToLE(v, 8))
  }

  function SetFree(m: Memory, a: nat, v: bool): (m': Memory)
    requires a + HEADER_SIZE <= |m|
    ensures HeaderWritten(m, m', a, HeaderAt(m, a).(free := v))
  {
    var m' := m[a + FREE_OFFSET := if v then 1 else 0];
    HeadersApartSame(m, m', a);
    m'
  }

  lemma ClearEffect(m: Memory, a: nat)
    requires a + HEADER_SIZE <= |m|
    ensures HeaderWritten(m, Store(m, a, Zeros(HEADER_SIZE)), a, Header(NULL, NULL, 0, false))
  {
    var m' := Store(m, a, Zeros(HEADER_SIZE));
    StoreEffect(m, a, Zeros(HEADER_SIZE));
    HeadersApartSame(m, m', a);
    FromLEZero(m'[a..a + 8]);
    FromLEZero(m'[a + 8..a + 16]);
    FromLEZero(m'[a + 16..a + 24]);
  }

  /** memset(hdr, 0, sizeof(memory_header)) */
  function ClearHeader(m: Memory, a: nat): (m': Memory)
    requires a + HEADER_SIZE <= |m|
    ensures HeaderWritten(m, m', a, Header(NULL, NULL, 0, false))
  {
    ClearEffect(m, a);
    Store(m, a, Zeros(HEADER_SIZE))
  }

  /** Storing a back link touches eight bytes, and none when it is there already. */
  lemma PreviousStored(m: Memory, a: nat, v: nat)
    requires a + HEADER_SIZE <= |m| && v < U64
    ensures SameOutside(m, SetPrevious(m, a, v), a, 8)
    ensures HeaderAt(m, a).previous == v ==> SetPrevious(m, a, v) == m
  {
    StoreEffect(m, a, ToLE(v, 8));
    if HeaderAt(m, a).previous == v {
      assert Pow256(8) == U64;
      FromToLE(v, 8);
      hide ToLE, FromLE;
      FromLEInjective(m[a..a + 8], ToLE(v, 8));
    }
  }
}
