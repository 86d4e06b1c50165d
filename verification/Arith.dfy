/** The few facts about multiplication and division that the models need. */
module Arith {

  function Pow2(n: nat): (r: nat)
    ensures r > 0
  {
    if n == 0 then 1 else 2 * Pow2(n - 1)
  }

  lemma {:induction false} Pow2Sum(a: nat, b: nat)
    ensures Pow2(a + b) == Pow2(a) * Pow2(b)
    decreases a
  {
    if a > 0 {
      Pow2Sum(a - 1, b);
      Doubled(Pow2(a - 1), Pow2(b));
    }
  }

  lemma Doubled(p: nat, q: nat)
    ensures 2 * p * q == 2 * (p * q)
  {
  }

  lemma WordIsPower()
    ensures Pow2(64) == 0x1_0000_0000_0000_0000
  {
    assert Pow2(4) == 16;
    hide Pow2;
    Pow2Sum(4, 4);
    Pow2Sum(8, 8);
    Pow2Sum(16, 16);
    assert Pow2(32) == 0x1_0000_0000;
    Pow2Sum(32, 32);
  }

  lemma MulMonotone(a: int, b: int, c: int)
    requires a <= b && 0 <= c
    ensures a * c <= b * c
  {
  }

  lemma DivMonotone(a: int, b: int, d: int)
    requires a <= b && 0 < d
    ensures a / d <= b / d
  {
    var p, q := a / d, b / d;
    assert p * d <= a && b < q * d + d;
    if q < p {
      MulMonotone(q + 1, p, d);
      assert false;
    }
  }

  lemma DivBelow(a: int, k: int, d: int)
    requires 0 < d && a < k * d
    ensures a / d < k
  {
  }

  /** A share w of `size`, scaled to `span`: monotone, and below `span` until
      the whole is reached. */
  lemma ScaledShare(w0: nat, w: nat, span: nat, size: nat)
    requires w0 <= w < size && 0 < span
    ensures 0 <= w0 * span / size <= w * span / size < span
  {
    MulMonotone(0, w0, span);
    MulMonotone(w0, w, span);
    var a0, a := w0 * span, w * span;
    DivMonotone(0, a0, size);
    DivMonotone(a0, a, size);
    MulMonotone(w + 1, size, span);
    assert a < size * span;
    DivBelow(a, span, size);
  }

  lemma Multiple(q: nat, b: nat)
    requires 0 < b
    ensures q * b % b == 0
  {
    var k, r := q * b / b, q * b % b;
    assert (q - k) * b == r;
    if q > k {
      MulMonotone(1, q - k, b);
    } else if q < k {
      MulMonotone(1, k - q, b);
    }
  }

  lemma Divides(a: nat, b: nat, c: nat)
    requires 0 < b && 0 < c && a % b == 0 && b % c == 0
    ensures a % c == 0
  {
    var q, r := a / b, b / c;
    assert a == q * b && b == r * c;
    assert a == q * r * c;
    Multiple(q * r, c);
  }

  lemma RoundedUp(memory: nat, alignment: nat, q: nat)
    requires 0 < alignment && q == (memory + alignment - 1) / alignment
    ensures memory <= q * alignment < memory + alignment
  {
  }

  function Div(a: nat, b: nat): nat
    requires b > 0
  {
    a / b
  }

  function Times(a: nat, b: nat): nat {
    a * b
  }

  function Mod(a: nat, b: nat): nat
    requires b > 0
  {
    a % b
  }

  lemma ModBelow(a: nat, b: nat)
    requires b > 0
    ensures Mod(a, b) < b && (a < b ==> Mod(a, b) == a)
  {
  }

  lemma Weighted(b: nat, v: nat, t: nat, p: nat)
    ensures b * (v + t * p) == b * v + t * (b * p)
  {
  }

  lemma DigitBelow(d: nat, v: nat, p: nat, b: nat)
    requires d < b && v < p
    ensures d + b * v < b * p
  {
    MulMonotone(v + 1, p, b);
  }

  lemma Quotient(r: nat, q: nat, b: nat)
    requires r < b
    ensures (r + b * q) / b == q && (r + b * q) % b == r
  {
    var k, m := (r + b * q) / b, (r + b * q) % b;
    assert b * (k - q) == r - m;
    if k > q {
      MulMonotone(1, k - q, b);
    } else if k < q {
      MulMonotone(1, q - k, b);
    }
  }

  /** A digit shifted out does not matter to those above it. */
  lemma DivNested(d: nat, b: nat, v: nat, p: nat)
    requires d < b && p > 0
    ensures b * p > 0 && (d + b * v) / (b * p) == v / p
  {
    var q, r := v / p, v % p;
    DigitBelow(d, r, p, b);
    assert v == r + p * q;
    Weighted(b, r, q, p);
    assert d + b * v == (d + b * r) + (b * p) * q;
    Quotient(d + b * r, q, b * p);
  }

  lemma DivDifference(a: nat, b: nat, d: nat)
    requires a <= b && 0 < d
    ensures 0 <= a / d <= b / d && 0 <= (b - a) / d <= b / d - a / d <= (b - a) / d + 1
  {
    DivMonotone(0, a, d);
    DivMonotone(0, b - a, d);
    DivMonotone(a, b, d);
    QuotientBounds(a, d);
    QuotientBounds(b, d);
    QuotientBounds(b - a, d);
    QuotientGap(a / d, b / d, (b - a) / d, a, b, d);
  }

  lemma QuotientBounds(a: int, d: int)
    requires 0 < d
    ensures a / d * d <= a < a / d * d + d
  {
  }

  lemma QuotientGap(p: int, q: int, r: int, a: int, b: int, d: int)
    requires 0 < d && p * d <= a < p * d + d && q * d <= b < q * d + d && r * d <= b - a < r * d + d
    ensures r <= q - p <= r + 1
  {
    assert (q - p + 1) * d == q * d - p * d + d;
    Cancel(r, q - p + 1, d);
    assert (r + 2) * d == r * d + d + d && (q - p) * d == q * d - p * d;
    Cancel(q - p, r + 2, d);
  }

  lemma Cancel(x: int, y: int, d: int)
    requires 0 < d && x * d < y * d
    ensures x < y
  {
  }

  lemma DoubleBoth(q: int, h: int)
    ensures 2 * (q * h) == q * (2 * h)
  {
  }

  lemma Products(q: int, d: int, t: int, r: int)
    ensures (d * q + r) * t == d * (q * t) + r * t
  {
  }

  lemma Regrouped(x: int, y: int, e: int)
    ensures x * (y * e) == x * y * e
  {
  }

  lemma Spread(x: int, y: int, t: int)
    ensures (x + y) * t == x * t + y * t
  {
  }

  lemma Swapped(x: int, e: int, t: int)
    ensures x * e * t == x * t * e
  {
  }
}
