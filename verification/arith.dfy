/**
 * Integer helpers (Python's `abs`, `min` and `max`) and the division facts
 * used by the frame counters and the grid: Dafny's `/` and `%` floor toward
 * minus infinity for a positive divisor, like Python's `//` and `%`.
 */
module Arith {

  function Abs(n: int): int
  {
    if n < 0 then -n else n
  }

  function Min(a: int, b: int): int
  {
    if a <= b then a else b
  }

  function Max(a: int, b: int): int
  {
    if a >= b then a else b
  }

  /** Multiplying by a positive number keeps the order, in both directions. */
  lemma MulOrder(a: int, b: int, n: int)
    requires n > 0
    ensures a <= b <==> a * n <= b * n
  {
    assert b * n - a * n == (b - a) * n;
  }

  /** `x / n` is the index of the span of length `n` holding `x`. */
  lemma FloorDiv(x: int, n: int)
    requires n > 0
    ensures (x / n) * n <= x < (x / n + 1) * n
  {
    assert x == (x / n) * n + x % n;
  }

  /** The negated quotient brackets `-x` from above. */
  lemma NegFloorDiv(x: int, n: int)
    requires x >= 0 && n > 0
    ensures (-(x / n) - 1) * n < -x <= -(x / n) * n
  {
    FloorDiv(x, n);
    assert (-(x / n) - 1) * n == -((x / n + 1) * n);
    assert -(x / n) * n == -((x / n) * n);
  }

  /** A quotient truncated toward zero rounds down when `a >= 0` and up when `a <= 0`. */
  lemma TruncQuotient(a: int, n: int, q: int)
    requires n > 0 && q == (if a < 0 then -(Abs(a) / n) else Abs(a) / n)
    ensures a >= 0 ==> q * n <= a < (q + 1) * n
    ensures a <= 0 ==> (q - 1) * n < a <= q * n
  {
    if a < 0 {
      NegFloorDiv(-a, n);
    } else {
      FloorDiv(a, n);
      if a == 0 {
        MulOrder(q, 0, n);
        MulOrder(0, q, n);
      }
    }
  }

  /** The span of length `n` holding `x` is the one at index `x / n` and no other. */
  lemma FloorUnique(x: int, n: int, c: int)
    requires n > 0
    ensures c * n <= x < (c + 1) * n <==> c == x / n
  {
    FloorDiv(x, n);
    MulOrder(c + 1, x / n, n);
    MulOrder(x / n + 1, c, n);
  }

  /** A value among the first `m` spans of length `n` lies in one of them. */
  lemma FloorBelow(x: int, n: int, m: int)
    requires n > 0 && 0 <= x < n * m
    ensures 0 <= x / n < m
  {
    FloorDiv(x, n);
    MulOrder(m, x / n, n);
    MulOrder(1, 0, n);
    MulOrder(0, x / n, n);
  }

  /** Division with a remainder in `[0, n)` has one answer. */
  lemma DivModUnique(x: int, n: int, q: int, r: int)
    requires n > 0 && 0 <= r < n && x == q * n + r
    ensures x / n == q && x % n == r
  {
    assert (q + 1) * n == q * n + n;
    FloorUnique(x, n, q);
  }

  /** Going one further around a cycle of length `n`. */
  lemma ModStep(x: int, n: int)
    requires n > 0
    ensures (x + 1) % n == if x % n == n - 1 then 0 else x % n + 1
  {
    var q := x / n;
    FloorDiv(x, n);
    if x % n == n - 1 {
      assert (q + 1) * n == q * n + n;
      DivModUnique(x + 1, n, q + 1, 0);
    } else {
      DivModUnique(x + 1, n, q, x % n + 1);
    }
  }

  /** Going one back around a cycle of length `n`, from inside it. */
  lemma ModStepBack(v: int, n: int)
    requires 0 <= v < n
    ensures (v - 1) % n == if v == 0 then n - 1 else v - 1
  {
    if v == 0 {
      DivModUnique(-1, n, -1, n - 1);
    } else {
      DivModUnique(v - 1, n, 0, v - 1);
    }
  }

  /** Going one further around a cycle of length `n`, from inside it. */
  lemma ModStepForward(v: int, n: int)
    requires 0 <= v < n
    ensures (v + 1) % n == if v == n - 1 then 0 else v + 1
  {
    DivModUnique(v, n, 0, v);
    ModStep(v, n);
  }

  /** Going a whole cycle of length `n` further comes back to the same place. */
  lemma ModFullTurn(v: int, n: int)
    requires 0 <= v < n
    ensures (v + n) % n == v
  {
    DivModUnique(v + n, n, 1, v);
  }
}
