/** Integer facts the index arithmetic needs: floor division, ceiling
    division and monotonicity of products, each proved from the definition
    of Euclidean division rather than left to the solver's nonlinear
    reasoning. */
module Arith {
  function Min(a: int, b: int): int
  {
    if a <= b then a else b
  }

  /** `ceil(n / step)`: the number of multiples of `step` in `[0, n)`. */
  function CeilDiv(n: nat, step: int): nat
    requires step > 0
  {
    (n + step - 1) / step
  }

  /** Multiplying by a non-negative factor keeps `<=`. */
  lemma MulLeft(a: int, b: int, c: int)
    requires a <= b && c >= 0
    ensures a * c <= b * c
  {
    assert b * c - a * c == (b - a) * c;
  }

  /** A positive factor can be cancelled from a strict inequality. */
  lemma MulLtCancel(x: int, y: int, d: int)
    requires d > 0 && x * d < y * d
    ensures x < y
  {
    if y <= x {
      MulLeft(y, x, d);
    }
  }

  /** `i` is below `ceil(n / step)` exactly when `i * step` is below `n`. */
  lemma CeilDivBounds(n: nat, step: int, i: int)
    requires step > 0 && 0 <= i
    ensures i < CeilDiv(n, step) <==> i * step < n
  {
    var c := CeilDiv(n, step);
    assert c * step <= n + step - 1 < c * step + step;
    if i < c {
      MulLeft(i, c - 1, step);
      assert (c - 1) * step == c * step - step;
    } else {
      MulLeft(c, i, step);
    }
  }

  /** Floor division is determined by any quotient/remainder pair. */
  lemma DivUnique(x: int, d: int, q: int, m: int)
    requires d > 0 && x == q * d + m && 0 <= m < d
    ensures x / d == q && x % d == m
  {
    var q', m' := x / d, x % d;
    assert (q' - q) * d == m - m' by {
      assert q' * d + m' == x;
    }
    MulLtCancel(-1, q' - q, d);
    MulLtCancel(q' - q, 1, d);
  }

  /** A multiple of `step` leaves no remainder and divides back exactly. */
  lemma MultipleMod(i: int, step: int)
    requires step > 0
    ensures (i * step) % step == 0 && (i * step) / step == i
  {
    DivUnique(i * step, step, i, 0);
  }

  /** Floor division by a positive divisor never decreases. */
  lemma DivMonotone(a: int, b: int, d: int)
    requires a <= b && d > 0
    ensures a / d <= b / d
  {
    var qa, qb := a / d, b / d;
    assert qa * d <= a;
    assert b < qb * d + d == (qb + 1) * d;
    MulLtCancel(qa, qb + 1, d);
  }

  /** Another `step` elements add exactly one multiple; up to `step`
      elements hold exactly one. */
  lemma CeilDivStep(n: nat, step: int)
    requires step > 0
    ensures CeilDiv(n + step, step) == CeilDiv(n, step) + 1
    ensures 0 < n <= step ==> CeilDiv(n, step) == 1
  {
    var q, m := CeilDiv(n, step), (n + step - 1) % step;
    DivUnique(n + step + step - 1, step, q + 1, m);
    if 0 < n <= step {
      DivUnique(n + step - 1, step, 1, n - 1);
    }
  }
}
