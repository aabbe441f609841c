/** Go's integer division and the few multiplication facts the rasteriser's
    proofs need. Dafny's `/` is Euclidean; Go's truncates toward zero, which
    differs when the dividend is negative. */
module GoInt {

  /** `q` is `n / d` rounded toward zero: for a non-negative dividend the
      largest multiple of `d` not above it, for a negative one the smallest
      not below it. */
  predicate TruncQuotient(q: int, n: int, d: int)
  {
    && (n >= 0 ==> q * d <= n < q * d + d)
    && (n < 0 ==> q * d - d < n <= q * d)
  }

  /** Go's `n / d` for a positive divisor: the quotient truncated toward zero. */
  function TruncDiv(n: int, d: int): (q: int)
    requires d > 0
    ensures TruncQuotient(q, n, d)
  {
    if n >= 0 then n / d else -((-n) / d)
  }

  lemma MulNonNeg(a: int, b: int)
    requires a >= 0 && b >= 0
    ensures a * b >= 0
  {
  }

  /** Multiplying by a positive factor preserves strict order. */
  lemma MulStrictMono(a: int, b: int, d: int)
    requires d > 0 && a < b
    ensures a * d < b * d
  {
    MulNonNeg(b - a - 1, d);
    assert (b - a) * d == b * d - a * d;
    assert (b - a - 1) * d == (b - a) * d - d;
  }

  /** A bracketing `q * d <= k * d < q * d + d` pins the quotient: q == k. */
  lemma QuotientUnique(q: int, k: int, d: int)
    requires d > 0
    requires q * d <= k * d < q * d + d
    ensures q == k
  {
    if q < k {
      MulNonNeg(k - q - 1, d);
      assert false;
    } else if k < q {
      MulStrictMono(k, q, d);
      assert false;
    }
  }

  /** Go's division is odd-symmetric: negating the dividend negates the
      quotient (Euclidean division is not). */
  lemma TruncDivNeg(n: int, d: int)
    requires d > 0
    ensures TruncDiv(-n, d) == -TruncDiv(n, d)
  {
  }

  /** Scaling `dx` by `i/dy` with `0 <= i <= dy`, truncated: the result lies
      between 0 and `dx` and hits both ends at `i == 0` and `i == dy`. */
  lemma TruncScaledNonNeg(dx: int, i: int, dy: int)
    requires dy > 0 && 0 <= i <= dy && dx >= 0
    ensures 0 <= TruncDiv(dx * i, dy) <= dx
    ensures i == 0 ==> TruncDiv(dx * i, dy) == 0
    ensures i == dy ==> TruncDiv(dx * i, dy) == dx
  {
    var n, q := dx * i, TruncDiv(dx * i, dy);
    MulNonNeg(dx, i);
    MulNonNeg(dx, dy - i);
    assert dx * (dy - i) == dx * dy - n;
    if q > dx {
      MulStrictMono(dx, q, dy);
      assert false;
    }
    if q < 0 {
      MulNonNeg(-q - 1, dy);
      assert false;
    }
    if i == dy {
      QuotientUnique(q, dx, dy);
    }
  }

  lemma TruncScaled(dx: int, i: int, dy: int)
    requires dy > 0 && 0 <= i <= dy
    ensures dx >= 0 ==> 0 <= TruncDiv(dx * i, dy) <= dx
    ensures dx < 0 ==> dx <= TruncDiv(dx * i, dy) <= 0
    ensures i == 0 ==> TruncDiv(dx * i, dy) == 0
    ensures i == dy ==> TruncDiv(dx * i, dy) == dx
  {
    if dx >= 0 {
      TruncScaledNonNeg(dx, i, dy);
    } else {
      TruncScaledNonNeg(-dx, i, dy);
      assert dx * i == -((-dx) * i);
      TruncDivNeg((-dx) * i, dy);
    }
  }

  /** `m * n` by repeated addition. Proofs that must not hand the solver a
      nonlinear product state their invariants with `Times` and convert with
      `TimesIsProduct` only inside small lemmas. */
  function Times(m: nat, n: int): int
  {
    if m == 0 then 0 else Times(m - 1, n) + n
  }

  lemma {:induction false} TimesIsProduct(m: nat, n: int)
    ensures Times(m, n) == m * n
  {
    if m > 0 {
      TimesIsProduct(m - 1, n);
    }
  }
}
