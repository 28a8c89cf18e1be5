/**
  Natural-number arithmetic that stands in for the bit shifts of the implicit
  tree: `1 << k` is `Pow2(k)`, `x >> k` is `x / Pow2(k)` and `x & 1` is `x % 2`.
 */
module Arith {

  /** 2 to the power k, the value of `size_t(1) << k`. */
  function Pow2(k: nat): (p: nat)
    ensures p >= 1
  {
    if k == 0 then 1 else 2 * Pow2(k - 1)
  }

  function Min(a: int, b: int): int {
    if a <= b then a else b
  }

  function Max(a: int, b: int): int {
    if a >= b then a else b
  }

  /** Powers of two grow with the exponent. */
  lemma {:induction false} Pow2Monotone(a: nat, b: nat)
    requires a <= b
    ensures Pow2(a) <= Pow2(b)
    ensures a < b ==> 2 * Pow2(a) <= Pow2(b)
    decreases b
  {
    if a < b {
      Pow2Monotone(a, b - 1);
    }
  }

  /** Exponents add: `(1 << a) << b == 1 << (a + b)`. */
  lemma {:induction false} Pow2Add(a: nat, b: nat)
    ensures Pow2(a + b) == Pow2(a) * Pow2(b)
    decreases b
  {
    if b > 0 {
      Pow2Add(a, b - 1);
      assert Pow2(a + b) == 2 * Pow2(a + b - 1);
      assert Pow2(b) == 2 * Pow2(b - 1);
    }
  }

  /** Multiplication by a non-negative factor preserves order. */
  lemma MulMonotone(a: nat, b: int, c: int)
    requires b <= c
    ensures a * b <= a * c
  {
    var d := c - b;
    assert a * c == a * b + a * d;
  }

  /** The only multiple of d strictly between -d and d is zero. */
  lemma MulBetween(d: int, t: int)
    requires d > 0 && -d < d * t < d
    ensures t == 0
  {
    if t >= 1 {
      MulMonotone(d, 1, t);
    } else if t <= -1 {
      MulMonotone(d, t, -1);
    }
  }

  /** Euclidean division is unique: if x == d * q + m with 0 <= m < d, then q and m
      are the quotient and remainder of x by d. */
  lemma DivModUnique(x: int, d: int, q: int, m: int)
    requires d > 0 && 0 <= m < d
    requires x == d * q + m
    ensures x / d == q && x % d == m
  {
    var q' := x / d;
    var m' := x % d;
    assert x == d * q' + m';
    assert d * (q' - q) == m - m';
    MulBetween(d, q' - q);
  }

  /** A quotient of at least one means the dividend is at least the divisor. */
  lemma DivLowerBound(x: int, d: int)
    requires d > 0 && x >= 0
    ensures x / d >= 1 <==> x >= d
  {
    var q := x / d;
    assert x == d * q + x % d;
    if q >= 1 {
      MulMonotone(d, 1, q);
    } else {
      assert q == 0 by {
        if q < 0 {
          MulMonotone(d, q, -1);
        }
      }
    }
  }

  /** Doubling a factor doubles the product. */
  lemma DoubleProduct(p: int, x: int)
    ensures (2 * p) * x == 2 * (p * x)
  {
  }

  /** p (2o + 1) splits into an even multiple of p plus p. */
  lemma OddProduct(p: int, o: int)
    ensures p * (2 * o + 1) == p * (2 * o) + p
  {
  }

  /** If w * o < w * m, then a whole further stride w still fits below w * m. */
  lemma StrideFits(w: int, o: int, m: int)
    requires w > 0 && w * o < w * m
    ensures w * o + w <= w * m
  {
    if o >= m {
      MulMonotone(w, m, o);
    }
    MulMonotone(w, o + 1, m);
    assert w * (o + 1) == w * o + w;
  }

  /** The quotient reaches q exactly when the dividend reaches d * q. */
  lemma DivAtLeast(x: int, d: int, q: int)
    requires d > 0
    ensures x / d >= q <==> x >= d * q
  {
    var q' := x / d;
    assert x == d * q' + x % d;
    if q' >= q {
      MulMonotone(d, q, q');
    } else {
      MulMonotone(d, q' + 1, q);
      assert d * (q' + 1) == d * q' + d;
    }
  }
}
