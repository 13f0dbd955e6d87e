/**
 Byte strings and the integers they encode.

 Memory is a sequence of bytes indexed by physical address.  The processor is little-endian; QEMU's
 fw_cfg interface sends big-endian fields.
 */
module Bytes {
  type Memory = seq<bv8>

  function Pow256(n: nat): (p: nat)
    ensures p > 0
  {
    if n == 0 then 1 else 256 * Pow256(n - 1)
  }

  /** The byte with value v. */
  function ByteOf(v: nat): (b: bv8)
    requires v < 256
    ensures b as nat == v
  {
    if v == 0 then 0 else ByteOf(v - 1) + 1
  }

  /** The number a little-endian byte string stands for. */
  function FromLE(s: seq<bv8>): nat {
    if |s| == 0 then 0 else s[0] as nat + 256 * FromLE(s[1..])
  }

  lemma LEHead(s: seq<bv8>)
    requires |s| > 0
    ensures FromLE(s) == s[0] as nat + 256 * FromLE(s[1..])
  {
  }

  /** Two, four and eight bytes in little-endian order, with their weights. */
  lemma TwoBytesLE(s: seq<bv8>)
    requires |s| == 2
    ensures FromLE(s) == s[0] as nat + 0x100 * s[1] as nat
  {
    LEHead(s);
    LEHead(s[1..]);
    assert s[1..][1..] == [];
  }

  lemma FourThenRestLE(s: seq<bv8>)
    requires 4 <= |s|
    ensures FromLE(s) == s[0] as nat + 0x100 * s[1] as nat + 0x1_0000 * s[2] as nat + 0x100_0000 * s[3] as nat
                         + 0x1_0000_0000 * FromLE(s[4..])
  {
    hide FromLE;
    LEHead(s);
    LEHead(s[1..]);
    LEHead(s[2..]);
    LEHead(s[3..]);
    assert s[1..][1..] == s[2..] && s[2..][1..] == s[3..] && s[3..][1..] == s[4..];
  }

  lemma FourBytesLE(s: seq<bv8>)
    requires |s| == 4
    ensures FromLE(s) == s[0] as nat + 0x100 * s[1] as nat + 0x1_0000 * s[2] as nat + 0x100_0000 * s[3] as nat
  {
    FourThenRestLE(s);
  }

  lemma EightBytesLE(s: seq<bv8>)
    requires |s| == 8
    ensures FromLE(s)
         == s[0] as nat + 0x100 * s[1] as nat + 0x1_0000 * s[2] as nat + 0x100_0000 * s[3] as nat
            + 0x1_0000_0000 * s[4] as nat + 0x100_0000_0000 * s[5] as nat
            + 0x1_0000_0000_0000 * s[6] as nat + 0x100_0000_0000_0000 * s[7] as nat
  {
    hide FromLE;
    FourThenRestLE(s);
    FourBytesLE(s[4..]);
  }

  /** The n-byte little-endian encoding of v, truncated to n bytes. */
  function ToLE(v: nat, n: nat): (s: seq<bv8>)
    ensures |s| == n
    decreases n
  {
    if n == 0 then [] else [ByteOf(v % 256)] + ToLE(v / 256, n - 1)
  }

  function Zeros(n: nat): seq<bv8> { seq(n, _ => 0) }

  lemma {:induction false} FromToLE(v: nat, n: nat)
    requires v < Pow256(n)
    ensures FromLE(ToLE(v, n)) == v
  {
    if n > 0 {
      FromToLE(v / 256, n - 1);
      assert ToLE(v, n)[1..] == ToLE(v / 256, n - 1);
    }
  }

  lemma {:induction false} FromLEBound(s: seq<bv8>)
    ensures FromLE(s) < Pow256(|s|)
  {
    if |s| > 0 { FromLEBound(s[1..]); }
  }

  lemma {:induction false} FromLEZero(s: seq<bv8>)
    requires forall i :: 0 <= i < |s| ==> s[i] == 0
    ensures FromLE(s) == 0
  {
    if |s| > 0 { FromLEZero(s[1..]); }
  }

  lemma SameByte(a: bv8, b: bv8)
    requires a as nat == b as nat
    ensures a == b
  {
  }

  lemma DigitsSplit(x: nat, r: nat, y: nat, q: nat)
    requires x < 256 && y < 256 && x + 256 * r == y + 256 * q
    ensures x == y && r == q
  {
  }

  /** Strings of one length encode different numbers. */
  lemma {:induction false} FromLEInjective(s: seq<bv8>, t: seq<bv8>)
    requires |s| == |t| && FromLE(s) == FromLE(t)
    ensures s == t
  {
    if |s| > 0 {
      DigitsSplit(s[0] as nat, FromLE(s[1..]), t[0] as nat, FromLE(t[1..]));
      SameByte(s[0], t[0]);
      hide FromLE;
      FromLEInjective(s[1..], t[1..]);
      assert s == [s[0]] + s[1..] && t == [t[0]] + t[1..];
    }
  }

  /** Zeroing bytes makes the number no larger. */
  lemma {:induction false} FromLEZeroed(s: seq<bv8>, t: seq<bv8>)
    requires |s| == |t| && forall i :: 0 <= i < |s| ==> t[i] == s[i] || t[i] == 0
    ensures FromLE(t) <= FromLE(s)
  {
    if |s| > 0 {
      FromLEZeroed(s[1..], t[1..]);
    }
  }

  // ---------------------------------------------------------------- stores

  /** Memory after the bytes s are stored at address a. */
  function Store(m: Memory, a: nat, s: seq<bv8>): (m': Memory)
    requires a + |s| <= |m|
    ensures |m'| == |m|
  {
    m[..a] + s + m[a + |s|..]
  }

  /** m and m' agree outside [a, a + n). */
  ghost predicate SameOutside(m: Memory, m': Memory, a: nat, n: nat) {
    |m| == |m'| && forall p :: 0 <= p < |m| && !(a <= p < a + n) ==> m'[p] == m[p]
  }

  lemma StoreEffect(m: Memory, a: nat, s: seq<bv8>)
    requires a + |s| <= |m|
    ensures var m' := Store(m, a, s); SameOutside(m, m', a, |s|) && m'[a..a + |s|] == s
  {
  }

  lemma SliceSame(m: Memory, m': Memory, a: nat, n: nat, b: nat, k: nat)
    requires SameOutside(m, m', a, n) && b + k <= |m|
    requires b + k <= a || a + n <= b
    ensures m'[b..b + k] == m[b..b + k]
  {
  }

  /** memset and memcpy store byte after byte. */
  method StoreBytes(ram: array<bv8>, a: nat, s: seq<bv8>)
    requires a + |s| <= ram.Length
    modifies ram
    ensures ram[..] == Store(old(ram[..]), a, s)
  {
    for i := 0 to |s|
      invariant forall p :: 0 <= p < ram.Length ==> ram[p] == if a <= p < a + i then s[p - a] else old(ram[p])
    {
      ram[a + i] := s[i];
    }
  }
}
