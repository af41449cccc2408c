/** Integer facts the solver does not find on its own (uniqueness of floor
    division, monotonicity of multiplication), Java's truncating integer
    division, and a count-down induction principle. */
module Arith {

  /** `v / d` and `v % d` are the only quotient and remainder of `v` by `d`. */
  lemma DivModUnique(v: int, d: int, q: int, r: int)
    requires d > 0 && 0 <= r < d && v == q * d + r
    ensures v % d == r && v / d == q
  {
    var q0, r0 := v / d, v % d;
    assert (q - q0) * d == r0 - r;
    MulStrict(q - q0, d);
  }

  /** A multiple of `d` strictly between `-d` and `d` is zero. */
  lemma MulStrict(k: int, d: int)
    requires d > 0 && -d < k * d < d
    ensures k == 0
  {
  }

  /** One more row of `b`: `(a + 1) * b == a * b + b`. */
  lemma MulNext(a: int, b: int)
    ensures (a + 1) * b == a * b + b
  {
  }

  lemma MulLe(a: int, b: int, c: int)
    requires c >= 0
    ensures a <= b ==> a * c <= b * c
  {
  }

  /** Row-major positions: `y * n + x` with `0 <= x < n` orders like `(y, x)`. */
  lemma RowMajorLess(y1: int, x1: int, y2: int, x2: int, n: int)
    requires n > 0 && 0 <= x1 < n && 0 <= x2 < n
    ensures y1 * n + x1 < y2 * n + x2 <==> y1 < y2 || (y1 == y2 && x1 < x2)
  {
    if y1 < y2 {
      MulLe(y1 + 1, y2, n);
    } else if y2 < y1 {
      MulLe(y2 + 1, y1, n);
    }
  }

  /** Row-major positions are distinct for distinct `(y, x)`. */
  lemma RowMajorUnique(y1: int, x1: int, y2: int, x2: int, n: int)
    requires n > 0 && 0 <= x1 < n && 0 <= x2 < n
    ensures y1 * n + x1 == y2 * n + x2 <==> y1 == y2 && x1 == x2
  {
    RowMajorLess(y1, x1, y2, x2, n);
    RowMajorLess(y2, x2, y1, x1, n);
  }

  /** A property of `k` that holds at `top` and passes from `k + 1` down to
      `k` holds at every `k` up to `top`. */
  lemma {:induction false} CountDown(p: nat -> bool, top: nat, k: nat)
    requires k <= top && p(top)
    requires forall j: nat :: j < top ==> p(j + 1) ==> p(j)
    ensures p(k)
    decreases top - k
  {
    if k < top {
      CountDown(p, top, k + 1);
    }
  }

  // ---- Java integer division -----------------------------------------------

  /** Java's `a / b`: the quotient rounded toward zero. */
  function JDiv(a: int, b: int): int
    requires b != 0
  {
    if a >= 0 && b > 0 then a / b
    else if a >= 0 then -(a / -b)
    else if b > 0 then -(-a / b)
    else -a / -b
  }

  /** Java's `a % b`: the remainder that goes with `JDiv`, so that
      `a == JDiv(a, b) * b + JRem(a, b)` always holds. */
  function JRem(a: int, b: int): (r: int)
    requires b != 0
    ensures a == JDiv(a, b) * b + r
  {
    a - JDiv(a, b) * b
  }

  /** On a non-negative dividend and a positive divisor Java's operators
      agree with floor division, and the remainder lies in `[0, b)`. */
  lemma JDivOfNatural(a: int, b: int)
    requires a >= 0 && b > 0
    ensures JDiv(a, b) == a / b && JRem(a, b) == a % b
    ensures 0 <= JRem(a, b) < b
  {
  }

  /** Java truncates where floor division rounds down: `-7 / 2` is -3 and
      `-7 % 2` is -1 in Java. */
  lemma JDivTruncates()
    ensures JDiv(-7, 2) == -3 && JRem(-7, 2) == -1
    ensures -7 / 2 == -4 && -7 % 2 == 1
  {
  }
}
