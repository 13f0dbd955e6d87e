/** Integer widths, and multiplication and division facts the solver should not have to search for. */
module Arithmetic {
  const U16: nat := 0x1_0000
  const U32: nat := 0x1_0000_0000
  const U64: nat := 0x1_0000_0000_0000_0000

  lemma MulLe(a: nat, b: nat, c: nat)
    requires a <= b
    ensures a * c <= b * c
  {
  }

  lemma Distribute(k: nat, w: nat, c: nat)
    requires k <= w
    ensures k * c + (w - k) * c == w * c
  {
  }

  lemma Associate(a: nat, b: nat, c: nat)
    ensures (a * b) * c == a * (b * c)
  {
  }

  lemma SmallMod(x: nat, m: nat)
    requires x < m
    ensures x % m == x
  {
  }

  lemma DivBounds(x: nat, d: nat)
    requires 0 < d
    ensures x / d * d <= x < x / d * d + d && x % d == x - x / d * d
  {
  }

  lemma QuotientOf(k: nat, d: nat, inside: nat)
    requires inside < d
    ensures (k * d + inside) / d == k && (k * d + inside) % d == inside
  {
    var q := (k * d + inside) / d;
    DivBounds(k * d + inside, d);
    if q < k {
      Distribute(1, q + 1, d);
      MulLe(q + 1, k, d);
    }
    if k < q {
      Distribute(1, k + 1, d);
      MulLe(k + 1, q, d);
    }
  }

  /** A multiple k * d above o is at least the next multiple after o. */
  lemma NextMultiple(o: nat, d: nat, k: nat)
    requires 0 < d && o < k * d
    ensures (o / d + 1) * d <= k * d
  {
    DivBounds(o, d);
    if k < o / d + 1 { MulLe(k, o / d, d); }
    MulLe(o / d + 1, k, d);
  }

  /** The last digit of a remainder, and the rest. */
  lemma ModSplit(d: nat, b: nat, p: nat)
    requires 0 < b && 0 < p
    ensures 0 < b * p && d % (b * p) == (d / b) % p * b + d % b
  {
    var q := d / b;
    var k, r := q / p, q % p;
    DivBounds(d, b);
    DivBounds(q, p);
    assert q == k * p + r;
    assert q * b == (k * p) * b + r * b;
    Associate(k, p, b);
    MulLe(1, p, b);
    MulLe(r + 1, p, b);
    Distribute(1, r + 1, b);
    assert b * p == p * b;
    QuotientOf(k, b * p, r * b + d % b);
  }
}
