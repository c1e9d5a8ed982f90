/**
 * Integer facts used by the 128-bit model: powers of two and Euclidean
 * division. Dafny's `/` and `%` are Euclidean; every divisor below is
 * positive, where that coincides with floor division.
 */
module Arith {

  /** 2^n */
  function Pow2(n: nat): (r: nat)
    ensures r >= 1
  {
    if n == 0 then 1 else 2 * Pow2(n - 1)
  }

  lemma {:induction false} Pow2Add(a: nat, b: nat)
    ensures Pow2(a + b) == Pow2(a) * Pow2(b)
  {
    if a > 0 {
      Pow2Add(a - 1, b);
      calc {
        Pow2(a + b);
        2 * Pow2(a - 1 + b);
        2 * (Pow2(a - 1) * Pow2(b));
        (2 * Pow2(a - 1)) * Pow2(b);
      }
    }
  }

  lemma {:induction false} Pow2Monotone(a: nat, b: nat)
    requires a <= b
    ensures Pow2(a) <= Pow2(b)
  {
    if a < b {
      Pow2Monotone(a, b - 1);
    }
  }

  /** Quotient and remainder are the only pair with x == q * d + r and 0 <= r < d. */
  lemma DivModUnique(x: int, d: int, q: int, r: int)
    requires 0 < d && 0 <= r < d && x == q * d + r
    ensures x / d == q && x % d == r
  {
    var k := q - x / d;
    assert k * d == x % d - r;
    MulBound(k, d);
  }

  /** x is its quotient times d plus its remainder. */
  lemma DivMod(x: int, d: int)
    requires 0 < d
    ensures x == (x / d) * d + x % d && 0 <= x % d < d
  {
  }

  lemma MulBound(k: int, d: int)
    requires 0 < d
    ensures 1 <= k ==> d <= k * d
    ensures k <= -1 ==> k * d <= -d
  {
  }

  /** x / d is at least k exactly when x is at least k * d. */
  lemma DivLowerBound(x: int, d: int, k: int)
    requires 0 < d
    ensures (x / d >= k) == (x >= k * d)
  {
    assert x == (x / d) * d + x % d;
    MulBound(x / d - k, d);
  }

  lemma MulMonotone(a: int, b: int, c: int)
    requires 0 <= a && b <= c
    ensures a * b <= a * c
  {
    assert a * c - a * b == a * (c - b);
  }

  /** Two Euclidean divisions in a row, put back together. */
  lemma Recombine(x: int, d: int, m: int, q1: int, r1: int, q2: int, r2: int)
    requires 0 < d && 0 < m
    requires x == q1 * d + r1 && 0 <= r1 < d
    requires q1 == q2 * m + r2 && 0 <= r2 < m
    ensures x == q2 * (d * m) + (d * r2 + r1)
    ensures 0 <= d * r2 + r1 < d * m
  {
    MulMonotone(d, r2, m - 1);
    MulMonotone(d, 0, r2);
    assert x == (q2 * m + r2) * d + r1;
  }

  /** A remainder modulo a product, split into its low digit and the rest. */
  lemma ModOfProduct(x: int, d: int, m: int)
    requires 0 < d && 0 < m
    ensures x % (d * m) == x % d + d * ((x / d) % m)
    ensures x / (d * m) == (x / d) / m
  {
    Recombine(x, d, m, x / d, x % d, (x / d) / m, (x / d) % m);
    DivModUnique(x, d * m, (x / d) / m, d * ((x / d) % m) + x % d);
  }

  /** Scaling a remainder scales the modulus: k * (x % m) == (k * x) % (k * m). */
  lemma ScaleMod(k: int, x: int, m: int)
    requires 0 < k && 0 < m
    ensures k * (x % m) == (k * x) % (k * m)
  {
    assert k * x == (x / m) * (k * m) + k * (x % m);
    assert k * (x % m) < k * m by {
      assert k * (x % m) <= k * (m - 1);
    }
    DivModUnique(k * x, k * m, x / m, k * (x % m));
  }

  /** Adding a multiple of the modulus does not change the remainder. */
  lemma ModAddMultiple(x: int, k: int, m: int)
    requires 0 < m
    ensures (x + k * m) % m == x % m
    ensures (x + k * m) / m == x / m + k
  {
    DivModUnique(x + k * m, m, x / m + k, x % m);
  }

  /** Reducing an operand before an addition does not change the sum's remainder. */
  lemma ModAddReduce(x: int, y: int, m: int)
    requires 0 < m
    ensures (x % m + y) % m == (x + y) % m
  {
    ModAddMultiple(x % m + y, x / m, m);
    assert x % m + y + (x / m) * m == x + y;
  }

  /** The same, with the reduced operand already named p. */
  lemma ModAddReduced(p: int, x: int, y: int, m: int)
    requires 0 < m && p == x % m
    ensures (p + y) % m == (x + y) % m
  {
    ModAddReduce(x, y, m);
  }

  /** Reducing an operand before a multiplication does not change the product's remainder. */
  lemma ModMul(x: int, c: int, m: int)
    requires 0 < m
    ensures (x % m) * c % m == x * c % m
  {
    ModAddMultiple((x % m) * c, (x / m) * c, m);
    assert (x % m) * c + ((x / m) * c) * m == x * c;
  }

  /** The next binary digit of x below 2^(k+1). */
  lemma ModPow2Step(x: int, k: nat)
    ensures x % Pow2(k + 1) == x % Pow2(k) + Pow2(k) * ((x / Pow2(k)) % 2)
    ensures x / Pow2(k + 1) == x / Pow2(k) / 2
  {
    Pow2Add(k, 1);
    ModOfProduct(x, Pow2(k), 2);
  }

  /** Floor division by d >= 1 keeps a value inside a range around zero. */
  lemma DivStaysInRange(x: int, d: int, lo: int, hi: int)
    requires 1 <= d && lo <= 0 < hi && lo <= x < hi
    ensures lo <= x / d < hi
  {
    MulMonotone(-lo, 1, d);
    MulMonotone(hi, 1, d);
    DivLowerBound(x, d, lo);
    DivLowerBound(x, d, hi);
  }

  /** A product with p, reduced modulo a multiple of p, is still a multiple of p. */
  lemma ScaledStaysMultiple(v: int, p: int, q: int)
    requires 0 < p && 0 < q
    ensures (v * p) % (p * q) % p == 0
  {
    ScaleMod(p, v, q);
    assert p * v == v * p;
    ModAddMultiple(0, v % q, p);
    assert 0 + (v % q) * p == p * (v % q);
  }

  /** 2^total split at n. */
  lemma Pow2Split(n: nat, total: nat)
    requires n <= total
    ensures Pow2(total) == Pow2(n) * Pow2(total - n)
  {
    Pow2Add(n, total - n);
  }

  /** Congruence modulo m is preserved by addition. */
  lemma ModCongruentAdd(x: int, y: int, x2: int, y2: int, m: int)
    requires 0 < m && x % m == x2 % m && y % m == y2 % m
    ensures (x + y) % m == (x2 + y2) % m
  {
    ModAddReduce(x, y, m);
    ModAddReduce(x2, y, m);
    ModAddReduce(y, x2, m);
    ModAddReduce(y2, x2, m);
    assert x % m + y == x2 % m + y;
    assert y % m + x2 == y2 % m + x2;
  }

  /** Congruence modulo m is preserved by multiplication. */
  lemma ModCongruentMul(x: int, y: int, x2: int, y2: int, m: int)
    requires 0 < m && x % m == x2 % m && y % m == y2 % m
    ensures (x * y) % m == (x2 * y2) % m
  {
    ModMul(x, y, m);
    ModMul(x2, y, m);
    ModMul(y, x2, m);
    ModMul(y2, x2, m);
    assert (x % m) * y == (x2 % m) * y;
    assert (y % m) * x2 == (y2 % m) * x2;
    assert x2 * y == y * x2 && y2 * x2 == x2 * y2;
  }

  /** Congruence modulo m is preserved by negation. */
  lemma ModCongruentNeg(x: int, x2: int, m: int)
    requires 0 < m && x % m == x2 % m
    ensures (-x) % m == (-x2) % m
  {
    var k := x2 / m - x / m;
    assert -x == -x2 + k * m;
    ModAddMultiple(-x2, k, m);
  }

  lemma MulCommutes(x: int, y: int)
    ensures x * y == y * x
  {
  }

  lemma MulAssociates(x: int, y: int, z: int)
    ensures (x * y) * z == x * (y * z)
  {
  }

  lemma MulDistributes(x: int, y: int, z: int)
    ensures x * (y + z) == x * y + x * z
  {
  }

  /** v * p, where p == m * q, regrouped as a multiple of m. */
  lemma ScaleSplit(v: int, p: int, m: int, q: int)
    requires p == m * q
    ensures v * p == (v * q) * m
  {
  }

  /** Below m == d * h, the quotient by d stays below h. */
  lemma QuotientBelow(v: int, d: int, h: int, m: int)
    requires 0 < d && v < m && m == d * h
    ensures v / d < h
  {
    DivLowerBound(v, d, h);
  }

  /** A sum split into its low byte and its carry, scaled by a weight p. */
  lemma DigitCarry(s: int, p: int)
    ensures (s % 256) * p + (s / 256) * (256 * p) == s * p
  {
    assert s == (s / 256) * 256 + s % 256;
    MulDistributes(p, (s / 256) * 256, s % 256);
  }

  /** The remainder of a two-digit (base p) two's-complement number. */
  lemma TwoDigitMod(v: int, p: int)
    requires 0 < p && -p <= v < p
    ensures v % (p * p) == v % p + p * (if v < 0 then p - 1 else 0)
  {
    MulMonotone(p, 1, p);
    if v < 0 {
      DivModUnique(v, p, -1, v + p);
      DivModUnique(v, p * p, -1, v + p * p);
    } else {
      DivModUnique(v, p, 0, v);
      DivModUnique(v, p * p, 0, v);
    }
  }

  /** r is x reduced modulo m when it differs from x by a multiple of m and lies in [0, m). */
  lemma ModByMultiple(x: int, r: int, k: int, m: int)
    requires 0 < m && 0 <= r < m && r == x + k * m
    ensures x % m == r
  {
    DivModUnique(x, m, -k, r);
  }

  /** r is x reduced modulo m when x is r plus c multiples of m and r lies in [0, m). */
  lemma ModOfCarry(x: int, r: int, c: int, m: int)
    requires 0 < m && 0 <= r < m && r + c * m == x
    ensures x % m == r
  {
    DivModUnique(x, m, c, r);
  }
}
