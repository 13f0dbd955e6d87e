/**
 The console's number padding.

 Output is the sequence of characters handed to the transmit function.  Strings are C strings: a
 NUL ends them.
 */
module Console {
  import opened Arithmetic
  import opened Numerals

  const NUL: char := '\0'

  // ---------------------------------------------------------------- padded numbers

  function LeadingZeros(s: string): (n: nat)
    ensures n <= |s| && (forall i :: 0 <= i < n ==> s[i] == '0') && (n < |s| ==> s[n] != '0')
  {
    if |s| == 0 || s[0] != '0' then 0 else 1 + LeadingZeros(s[1..])
  }

  /** Digits that cannot be left out: all from the first nonzero one on, and at least one. */
  function Significant(s: string): nat {
    if LeadingZeros(s) < |s| then |s| - LeadingZeros(s) else 1
  }

  function Max(a: int, b: int): int { if a < b then b else a }

  /** Where in the numeral printing starts, for a minimum width; negative means outside the buffer. */
  function StartOf(s: string, width: nat): int {
    |s| - Max(width, Significant(s))
  }

  /** Printing stays inside the buffer exactly for widths up to the length of the numeral. */
  lemma StartInBuffer(s: string, width: nat)
    requires 0 < |s|
    ensures 0 <= StartOf(s, width) <==> width <= |s|
  {
  }

  function Padded(s: string, width: nat): string
    requires 0 < |s| && width <= |s|
  {
    s[StartOf(s, width)..]
  }

  lemma PaddedLength(s: string, width: nat)
    requires 0 < |s| && width <= |s|
    ensures |Padded(s, width)| == Max(width, Significant(s))
  {
  }

  /** Only zeros are cut off. */
  lemma StartIsZeros(s: string, width: nat)
    requires 0 < |s| && width <= |s|
    ensures 0 <= StartOf(s, width) <= |s| && forall i :: 0 <= i < StartOf(s, width) ==> s[i] == '0'
  {
  }

  /** int converted to a 64-bit unsigned argument. */
  function SignExtended(d: int): nat
    requires -0x8000_0000 <= d < 0x8000_0000
  {
    d % U64
  }

  /** A negative int goes up by 2^64. */
  lemma SignExtendedIs(d: int)
    requires -0x8000_0000 <= d < 0x8000_0000
    ensures SignExtended(d) == if d >= 0 then d else 0x1_0000_0000_0000_0000 + d
  {
  }

  function Numeral(d: int, base: int): (s: string)
    requires -0x8000_0000 <= d < 0x8000_0000
    ensures |s| == NIBBLES && NUL !in s
  {
    if base == 16 then HexDigits(SignExtended(d), NIBBLES)
    else DecDigits(PackedValue(SignExtended(d), NIBBLES), NIBBLES)
  }

  /** strlen of the C string that starts at position p of a buffer. */
  method Strlen(buffer: array<char>, p: nat) returns (n: nat)
    requires p < buffer.Length && NUL in buffer[p..]
    ensures p + n < buffer.Length && buffer[p + n] == NUL && forall i :: p <= i < p + n ==> buffer[i] != NUL
  {
    n := 0;
    while buffer[p + n] != NUL
      invariant p + n < buffer.Length && NUL in buffer[p + n..]
      invariant forall i :: p <= i < p + n ==> buffer[i] != NUL
      decreases buffer.Length - n
    {
      n := n + 1;
    }
  }

  /** A fresh 33-byte buffer with the numeral in front and NULs after it. */
  method NumeralBuffer(d: int, base: int) returns (tmp: array<char>)
    requires -0x8000_0000 <= d < 0x8000_0000
    ensures fresh(tmp) && tmp.Length == 33 && tmp[..NIBBLES] == Numeral(d, base)
    ensures forall k :: 0 <= k < 33 ==> (tmp[k] == NUL <==> NIBBLES <= k)
  {
    hide HexDigits, DecDigits, PackedValue;
    tmp := new char[33](_ => NUL);
    if base == 16 {
      Itoah(SignExtended(d), tmp);
    } else {
      Itoa(SignExtended(d), tmp);
    }
    assert forall k :: 0 <= k < NIBBLES ==> tmp[k] == Numeral(d, base)[k];
  }

  /** strlen inside such a buffer. */
  method Remaining(tmp: array<char>, start: nat) returns (n: nat)
    requires tmp.Length == 33 && start <= NIBBLES && tmp[NIBBLES] == NUL
    requires forall i :: 0 <= i < NIBBLES ==> tmp[i] != NUL
    ensures n == NIBBLES - start
  {
    assert tmp[start..][NIBBLES - start] == NUL;
    n := Strlen(tmp, start);
  }

  /** What printing a number comes to: characters, or a start in front of the buffer. */
  datatype Printed = Sent(text: string) | BeforeBuffer

  /** bputint sends the padded numeral for widths up to 16; for any greater width it starts reading in
      front of its buffer. */
  method BPutInt(leadingZeros: nat, d: int, base: int) returns (printed: Printed)
    requires -0x8000_0000 <= d < 0x8000_0000
    ensures printed == if leadingZeros <= NIBBLES then Sent(Padded(Numeral(d, base), leadingZeros)) else BeforeBuffer
  {
    hide Numeral;
    var tmp := NumeralBuffer(d, base);
    ghost var s := Numeral(d, base);
    var start := 0;
    for i := 0 to 32
      invariant start == i <= LeadingZeros(s)
    {
      if tmp[start] != '0' {
        break;
      }
      assert i < NIBBLES && s[i] == '0';
      start := start + 1;
    }
    assert start < NIBBLES ==> tmp[start] == s[start];
    assert start == LeadingZeros(s);
    var n := Remaining(tmp, start);
    if n == 0 {
      start := start - 1;
    }
    if leadingZeros != 0 {
      n := Remaining(tmp, start);
      if n < leadingZeros {
        var count := leadingZeros - n;
        start := start - count;
      }
    }
    if start < 0 {
      return BeforeBuffer;
    }
    n := Remaining(tmp, start);
    printed := Sent(tmp[start..start + n]);
    assert printed.text == s[start..];
  }

  // ---------------------------------------------------------------- what a padded number says

  /** The number of digits of v in base b, at least one. */
  function MinDigits(b: nat, v: nat): nat
    requires 2 <= b
    decreases v
  {
    if v < b then 1
    else
      DivBounds(v, b);
      MulLe(2, b, v / b);
      1 + MinDigits(b, v / b)
  }

  lemma DivideBound(v: nat, b: nat, p: nat)
    requires 0 < b
    ensures v / b < p <==> v < b * p
  {
    DivBounds(v, b);
    if v / b < p { MulLe(v / b + 1, p, b); } else { MulLe(p, v / b, b); }
  }

  /** It is the least number of digits that can hold v. */
  lemma {:induction false} MinDigitsIsLeast(b: nat, v: nat, n: nat)
    requires 2 <= b && 0 < n
    ensures MinDigits(b, v) <= n <==> v < Pow(b, n)
    decreases n
  {
    DivBounds(v, b);
    if n == 1 {
      assert Pow(b, 1) == b;
    } else {
      MinDigitsIsLeast(b, v / b, n - 1);
      DivideBound(v, b, Pow(b, n - 1));
      MulLe(1, Pow(b, n - 1), b);
    }
  }

  lemma {:induction false} LeadingZerosSnoc(s: string, c: char)
    ensures LeadingZeros(s + [c]) ==
      if LeadingZeros(s) < |s| then LeadingZeros(s) else |s| + (if c == '0' then 1 else 0)
  {
    if |s| > 0 {
      LeadingZerosSnoc(s[1..], c);
      assert (s + [c])[1..] == s[1..] + [c];
    }
  }

  lemma {:induction false} SignificantHex(v: nat, n: nat)
    requires 0 < n && v < Pow(16, n)
    ensures Significant(HexDigits(v, n)) == MinDigits(16, v)
    ensures LeadingZeros(HexDigits(v, n)) == n <==> v == 0
    decreases n
  {
    var s := HexDigits(v / 16, n - 1);
    LeadingZerosSnoc(s, HexChar(v % 16));
    if 1 < n { SignificantHex(v / 16, n - 1); } else { assert Pow(16, 1) == 16; }
  }

  lemma {:induction false} LeadingZerosDoNotCount(s: string, k: nat)
    requires (forall c :: c in s ==> IsHex(c)) && k <= |s| && forall i :: 0 <= i < k ==> s[i] == '0'
    ensures HexValue(s[k..]) == HexValue(s)
    decreases |s|
  {
    if k < |s| {
      var rest := s[..|s| - 1];
      LeadingZerosDoNotCount(rest, k);
      assert s[k..][..|s| - k - 1] == rest[k..];
    } else if 0 < |s| {
      var rest := s[..|s| - 1];
      LeadingZerosDoNotCount(rest, k - 1);
      assert HexCharValue('0') == 0;
    }
  }

  lemma PowersOf16()
    ensures Pow(16, NIBBLES) == U64
  {
    assert Pow(16, 4) == 0x1_0000;
    assert Pow(16, 8) == 0x1_0000_0000;
    assert Pow(16, 12) == 0x1_0000_0000_0000;
  }

  /** For every int and width up to 16 exactly max(width, minimal count) digits are printed, and their
      hexadecimal value is the number, plus 2^64 when it is negative. */
  lemma PaddedHexExact(d: int, width: nat)
    requires -0x8000_0000 <= d < 0x8000_0000 && width <= NIBBLES
    ensures var out, v := Padded(Numeral(d, 16), width), if d >= 0 then d else 0x1_0000_0000_0000_0000 + d;
      && |out| == Max(width, MinDigits(16, v))
      && (forall c :: c in out ==> IsHex(c)) && HexValue(out) == v
  {
    var v := SignExtended(d);
    var s := HexDigits(v, NIBBLES);
    PowersOf16();
    SignExtendedIs(d);
    hide SignExtended, HexDigits, HexValue, LeadingZeros, MinDigits;
    SignificantHex(v, NIBBLES);
    HexValueOfDigits(v, NIBBLES);
    LeadingZerosDoNotCount(s, StartOf(s, width));
  }

  // ---------------------------------------------------------------- the same in base ten

  lemma {:induction false} SignificantDec(v: nat, n: nat)
    requires 0 < n && v < Pow(10, n)
    ensures Significant(DecDigits(v, n)) == MinDigits(10, v)
    ensures LeadingZeros(DecDigits(v, n)) == n <==> v == 0
    decreases n
  {
    var s := DecDigits(v / 10, n - 1);
    LeadingZerosSnoc(s, DecChar(v % 10));
    if 1 < n { SignificantDec(v / 10, n - 1); } else { assert Pow(10, 1) == 10; }
  }

  lemma {:induction false} LeadingZerosDoNotCountDec(s: string, k: nat)
    requires (forall c :: c in s ==> IsDec(c)) && k <= |s| && forall i :: 0 <= i < k ==> s[i] == '0'
    ensures DecValue(s[k..]) == DecValue(s)
    decreases |s|
  {
    if k < |s| {
      var rest := s[..|s| - 1];
      LeadingZerosDoNotCountDec(rest, k);
      assert s[k..][..|s| - k - 1] == rest[k..];
    } else if 0 < |s| {
      var rest := s[..|s| - 1];
      LeadingZerosDoNotCountDec(rest, k - 1);
      assert DecCharValue('0') == 0;
    }
  }

  /** The number whose decimal numeral itoa prints: the nibbles of d, or of 2^64 + d when d is negative, taken
      for decimal digits, modulo 10^16. */
  function ShownValue(d: int): nat
    requires -0x8000_0000 <= d < 0x8000_0000
  {
    PackedValue(if d >= 0 then d else 0x1_0000_0000_0000_0000 + d, 16) % 10_000_000_000_000_000
  }

  lemma PowersOf10()
    ensures Pow(10, 16) == 10_000_000_000_000_000
  {
    assert Pow(10, 4) == 10_000;
    assert Pow(10, 8) == 100_000_000;
    assert Pow(10, 12) == 1_000_000_000_000;
  }

  lemma NumeralShows(d: int)
    requires -0x8000_0000 <= d < 0x8000_0000
    ensures Numeral(d, 10) == DecDigits(ShownValue(d), NIBBLES)
    ensures DecValue(Numeral(d, 10)) == ShownValue(d) < Pow(10, NIBBLES)
  {
    var packed := PackedValue(SignExtended(d), NIBBLES);
    PowersOf10();
    SignExtendedIs(d);
    hide SignExtended, DecDigits, DecValue, PackedValue, Pow;
    DecDigitsModulo(packed, NIBBLES);
    DecValueIsModulo(packed, NIBBLES);
  }

  /** For every int and width up to 16 exactly max(width, minimal count) digits are printed, and their decimal
      value is the packed sum. */
  lemma PaddedDecExact(d: int, width: nat)
    requires -0x8000_0000 <= d < 0x8000_0000 && width <= NIBBLES
    ensures var out, v := Padded(Numeral(d, 10), width), ShownValue(d);
      && |out| == Max(width, MinDigits(10, v))
      && (forall c :: c in out ==> IsDec(c)) && DecValue(out) == v
  {
    hide Numeral, ShownValue, DecDigits, DecValue, LeadingZeros, MinDigits, Pow;
    NumeralShows(d);
    PaddedLength(Numeral(d, 10), width);
    SignificantDec(ShownValue(d), NIBBLES);
    StartIsZeros(Numeral(d, 10), width);
    LeadingZerosDoNotCountDec(Numeral(d, 10), StartOf(Numeral(d, 10), width));
  }
}
