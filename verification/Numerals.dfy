/**
 The two number printers.  Each fills 16 characters from the right, one 4-bit nibble at a time.
 Setting the bits 0x30 in a nibble below 16 is written as adding 0x30.
 */
module Numerals {
  import opened Arithmetic

  const NIBBLES: nat := 16

  function Pow(b: nat, n: nat): (p: nat)
    ensures 0 < b ==> 0 < p
  {
    if n == 0 then 1 else b * Pow(b, n - 1)
  }

  // ---------------------------------------------------------------- hexadecimal

  function HexChar(nibble: nat): char
    requires nibble < 16
  {
    if nibble < 10 then (nibble + 0x30) as char else (nibble - 0x0A + 0x41) as char
  }

  /** The digits, in order. */
  lemma HexAlphabet(v: nat)
    requires v < 16
    ensures HexChar(v) == "0123456789ABCDEF"[v]
  {
  }

  predicate IsHex(c: char) { '0' <= c <= '9' || 'A' <= c <= 'F' }

  function HexCharValue(c: char): (v: nat)
    requires IsHex(c)
    ensures v < 16 && HexChar(v) == c
  {
    if c <= '9' then c as int - 0x30 else c as int - 0x41 + 0x0A
  }

  /** The n-digit hexadecimal numeral of d, high digits dropped. */
  function HexDigits(d: nat, n: nat): (s: string)
    ensures |s| == n && forall c :: c in s ==> IsHex(c)
    decreases n
  {
    if n == 0 then "" else HexDigits(d / 16, n - 1) + [HexChar(d % 16)]
  }

  function HexValue(s: string): nat
    requires forall c :: c in s ==> IsHex(c)
  {
    if |s| == 0 then 0 else HexValue(s[..|s| - 1]) * 16 + HexCharValue(s[|s| - 1])
  }

  /** itoah: uppercase, zero-filled, and nothing else in the buffer changes. */
  method Itoah(value: nat, dst: array<char>)
    requires value < U64 && NIBBLES <= dst.Length
    modifies dst
    ensures dst[..] == HexDigits(value, NIBBLES) + old(dst[..])[NIBBLES..]
  {
    var d := value;
    for i := 0 to NIBBLES
      invariant forall k :: 0 <= k < dst.Length && !(NIBBLES - i <= k < NIBBLES) ==> dst[k] == old(dst[k])
      invariant HexDigits(value, NIBBLES) == HexDigits(d, NIBBLES - i) + dst[NIBBLES - i..NIBBLES]
    {
      var nibble := d % 16;
      d := d / 16;
      if nibble < 10 {
        nibble := nibble + 0x30;
      } else {
        nibble := nibble - 0x0A;
        nibble := nibble + 0x41;
      }
      dst[NIBBLES - i - 1] := nibble as char;
    }
  }

  /** Printing is invertible: the digits give the number back, ... */
  lemma {:induction false} HexValueOfDigits(d: nat, n: nat)
    requires d < Pow(16, n)
    ensures HexValue(HexDigits(d, n)) == d
    decreases n
  {
    if n > 0 {
      HexValueOfDigits(d / 16, n - 1);
      assert HexDigits(d, n)[..n - 1] == HexDigits(d / 16, n - 1);
    }
  }

  /** ... and printing the value of a numeral gives the numeral back. */
  lemma {:induction false} HexDigitsOfValue(s: string)
    requires forall c :: c in s ==> IsHex(c)
    ensures HexDigits(HexValue(s), |s|) == s
    decreases |s|
  {
    if |s| > 0 {
      var rest, last := s[..|s| - 1], s[|s| - 1];
      HexDigitsOfValue(rest);
      assert HexValue(s) / 16 == HexValue(rest) && HexValue(s) % 16 == HexCharValue(last);
      assert s == rest + [last];
    }
  }

  /** Order of strings of one length: the first difference decides. */
  predicate LexLess(s: string, t: string)
    requires |s| == |t|
  {
    |s| > 0 && (s[0] < t[0] || (s[0] == t[0] && LexLess(s[1..], t[1..])))
  }

  lemma {:induction false} LexLessLast(s: string, t: string, c: char, d: char)
    requires |s| == |t|
    ensures LexLess(s + [c], t + [d]) <==> LexLess(s, t) || (s == t && c < d)
  {
    if |s| > 0 {
      LexLessLast(s[1..], t[1..], c, d);
      assert (s + [c])[1..] == s[1..] + [c] && (t + [d])[1..] == t[1..] + [d];
      assert s == [s[0]] + s[1..] && t == [t[0]] + t[1..];
    }
  }

  /** Printing preserves and reflects order. */
  lemma {:induction false} HexDigitsOrdered(d: nat, e: nat, n: nat)
    requires d < Pow(16, n) && e < Pow(16, n)
    ensures LexLess(HexDigits(d, n), HexDigits(e, n)) <==> d < e
    decreases n
  {
    if n > 0 {
      HexDigitsOrdered(d / 16, e / 16, n - 1);
      LexLessLast(HexDigits(d / 16, n - 1), HexDigits(e / 16, n - 1), HexChar(d % 16), HexChar(e % 16));
      if HexDigits(d / 16, n - 1) == HexDigits(e / 16, n - 1) {
        HexValueOfDigits(d / 16, n - 1);
        HexValueOfDigits(e / 16, n - 1);
      }
    }
  }

  // ---------------------------------------------------------------- "decimal"

  function DecChar(digit: nat): char
    requires digit < 10
  {
    (digit + 0x30) as char
  }

  lemma DecAlphabet(v: nat)
    requires v < 10
    ensures DecChar(v) == "0123456789"[v]
  {
  }

  predicate IsDec(c: char) { '0' <= c <= '9' }

  function DecCharValue(c: char): (v: nat)
    requires IsDec(c)
    ensures v < 10 && DecChar(v) == c
  {
    c as int - 0x30
  }

  /** The n-digit decimal numeral of v, high digits dropped. */
  function DecDigits(v: nat, n: nat): (s: string)
    ensures |s| == n && forall c :: c in s ==> IsDec(c)
    decreases n
  {
    if n == 0 then "" else DecDigits(v / 10, n - 1) + [DecChar(v % 10)]
  }

  function DecValue(s: string): nat
    requires forall c :: c in s ==> IsDec(c)
  {
    if |s| == 0 then 0 else DecValue(s[..|s| - 1]) * 10 + DecCharValue(s[|s| - 1])
  }

  /** What itoa really adds up: nibble i counts 10^i, not 16^i. */
  function PackedValue(d: nat, n: nat): nat
    decreases n
  {
    if n == 0 then 0 else d % 16 + 10 * PackedValue(d / 16, n - 1)
  }

  lemma SplitNibble(lo: nat, hi: nat, p: nat)
    ensures (lo + hi * (16 * p)) % 16 == lo % 16 && (lo + hi * (16 * p)) / 16 == lo / 16 + hi * p
  {
    Associate(hi, p, 16);
    QuotientOf(lo / 16 + hi * p, 16, lo % 16);
  }

  /** A nibble counts as itself, and the nibbles above the first i count 10^i times what they count alone. */
  lemma {:induction false} PackedValueSplits(lo: nat, hi: nat, i: nat, n: nat)
    requires lo < Pow(16, i) && i <= n
    ensures PackedValue(lo + hi * Pow(16, i), n) == PackedValue(lo, i) + Pow(10, i) * PackedValue(hi, n - i)
    ensures hi < 16 ==> PackedValue(hi, 1) == hi
    decreases i
  {
    if 0 < i {
      var p := Pow(16, i - 1);
      SplitNibble(lo, hi, p);
      PackedValueSplits(lo / 16, hi, i - 1, n - 1);
      Associate(10, Pow(10, i - 1), PackedValue(hi, n - i));
    }
    assert PackedValue(hi / 16, 0) == 0;
  }

  /** One turn of the carry loop: the digit printed and the carry passed on. */
  lemma CarryStep(d: nat, carry: nat, n: nat)
    requires 0 < n && carry <= 1
    ensures var x, packed := d % 16 + carry, PackedValue(d, n) + carry;
      DecDigits(packed, n) == DecDigits(PackedValue(d / 16, n - 1) + (if x > 9 then 1 else 0), n - 1)
                              + [DecChar(if x > 9 then x - 10 else x)]
  {
    var x, rest := d % 16 + carry, PackedValue(d / 16, n - 1);
    assert PackedValue(d, n) + carry == x + 10 * rest;
    hide PackedValue;
  }

  /** itoa's carry loop prints the decimal numeral of the packed value, modulo 10^16. */
  method Itoa(value: nat, dst: array<char>)
    requires value < U64 && NIBBLES <= dst.Length
    modifies dst
    ensures dst[..] == DecDigits(PackedValue(value, NIBBLES), NIBBLES) + old(dst[..])[NIBBLES..]
  {
    hide PackedValue, DecDigits;
    var d := value;
    var carry := 0;
    for i := 0 to NIBBLES
      invariant carry <= 1
      invariant forall k :: 0 <= k < dst.Length && !(NIBBLES - i <= k < NIBBLES) ==> dst[k] == old(dst[k])
      invariant DecDigits(PackedValue(value, NIBBLES), NIBBLES)
             == DecDigits(PackedValue(d, NIBBLES - i) + carry, NIBBLES - i) + dst[NIBBLES - i..NIBBLES]
    {
      CarryStep(d, carry, NIBBLES - i);
      var nibble := d % 16;
      d := d / 16;
      if carry != 0 {
        nibble := nibble + carry;
        carry := 0;
      }
      if nibble > 0x09 {
        carry := 1;
        nibble := nibble - 0x0A;
      }
      dst[NIBBLES - i - 1] := (nibble + 0x30) as char;
    }
  }

  lemma {:induction false} DecValueOfDigits(v: nat, n: nat)
    ensures DecValue(DecDigits(v, n)) <= v
    ensures v < Pow(10, n) ==> DecValue(DecDigits(v, n)) == v
    decreases n
  {
    if n > 0 {
      DecValueOfDigits(v / 10, n - 1);
      assert DecDigits(v, n)[..n - 1] == DecDigits(v / 10, n - 1);
    }
  }

  /** The numeral's value is the number modulo 10^n. */
  lemma {:induction false} DecValueIsModulo(v: nat, n: nat)
    ensures DecValue(DecDigits(v, n)) == v % Pow(10, n)
    decreases n
  {
    if n > 0 {
      DecValueIsModulo(v / 10, n - 1);
      assert DecDigits(v, n)[..n - 1] == DecDigits(v / 10, n - 1);
      ModSplit(v, 10, Pow(10, n - 1));
    }
  }

  /** The digits that do not fit do not matter. */
  lemma {:induction false} DecDigitsModulo(v: nat, n: nat)
    ensures DecDigits(v, n) == DecDigits(v % Pow(10, n), n)
    decreases n
  {
    if n > 0 {
      var p := Pow(10, n - 1);
      DecDigitsModulo(v / 10, n - 1);
      ModSplit(v, 10, p);
      QuotientOf((v / 10) % p, 10, v % 10);
    }
  }

  lemma {:induction false} PackedZero(n: nat)
    ensures PackedValue(0, n) == 0
  {
    if n > 0 { PackedZero(n - 1); }
  }

  lemma {:induction false} PackedAtMost(d: nat, n: nat)
    ensures PackedValue(d, n) <= d && (PackedValue(d, n) == d ==> d < 16)
    ensures 0 < n && d < 16 ==> PackedValue(d, n) == d
    decreases n
  {
    if n > 0 {
      PackedAtMost(d / 16, n - 1);
      if d < 16 { PackedZero(n - 1); }
    }
  }

  /** itoa prints the true decimal value exactly for arguments below 16. */
  lemma ItoaIsDecimalExactlyBelow16(d: nat)
    ensures DecValue(DecDigits(PackedValue(d, NIBBLES), NIBBLES)) == d <==> d < 16
  {
    PackedAtMost(d, NIBBLES);
    DecValueOfDigits(PackedValue(d, NIBBLES), NIBBLES);
    assert Pow(10, NIBBLES) > 16;
  }

  /** Every nibble is a decimal digit: packed decimal (BCD). */
  predicate IsPacked(d: nat, n: nat)
    decreases n
  {
    n == 0 || (d % 16 < 10 && IsPacked(d / 16, n - 1))
  }

  /** On packed decimal digits itoa prints those digits, as itoah does. */
  lemma {:induction false} ItoaPrintsPackedDigits(d: nat, n: nat)
    requires IsPacked(d, n)
    ensures DecDigits(PackedValue(d, n), n) == HexDigits(d, n)
    decreases n
  {
    if n > 0 {
      ItoaPrintsPackedDigits(d / 16, n - 1);
      var rest := PackedValue(d / 16, n - 1);
      assert PackedValue(d, n) % 10 == d % 16 && PackedValue(d, n) / 10 == rest;
    }
  }
}
