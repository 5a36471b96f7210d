/** Facts about row-major index arithmetic used by the tiling and layout
    proofs (one index `i * m + j` for a pair `(i, j)` with `j < m`). */
module Arith {

  /** `ceil(n / b)`. */
  function CeilDiv(n: nat, b: nat): nat
    requires b > 0
  {
    (n + b - 1) / b
  }

  /** Steps of one cover `n` in `n` intervals. */
  lemma CeilDivOne(n: nat)
    ensures CeilDiv(n, 1) == n
  {
  }

  /** `CeilDiv(n, b)` is the least count of `b`-wide intervals covering `n`. */
  lemma CeilDivBounds(n: nat, b: nat)
    requires b > 0
    ensures CeilDiv(n, b) * b >= n && (CeilDiv(n, b) == 0 || (CeilDiv(n, b) - 1) * b < n)
    ensures n == 0 <==> CeilDiv(n, b) == 0
  {
    DivMod(n + b - 1, b);
  }

  /** `k` splits into its quotient and remainder by `m`. */
  lemma DivMod(k: int, m: int)
    requires m > 0
    ensures k == (k / m) * m + k % m && 0 <= k % m < m
  {
  }

  /** The quotient of a non-negative number, times the divisor, is the
      largest multiple not above it. */
  lemma QuotientBounds(a: int, b: int)
    requires a >= 0 && b > 0
    ensures 0 <= (a / b) * b <= a < (a / b) * b + b
  {
    DivMod(a, b);
    MulMono(0, a / b, b);
  }

  /** The same for a negative number divided with its sign moved out: the
      smallest multiple not below it. */
  lemma NegatedQuotientBounds(a: int, b: int)
    requires a < 0 && b > 0
    ensures -((-a) / b) * b - b < a <= -((-a) / b) * b <= 0
  {
    var d := (-a) / b;
    DivMod(-a, b);
    MulMono(0, d, b);
    assert (-d) * b == -(d * b);
  }

  /** The pair `(i, j)` with `j < m` is recovered from `i * m + j`. */
  lemma PairOfIndex(i: nat, j: nat, m: nat)
    requires j < m
    ensures (i * m + j) / m == i && (i * m + j) % m == j
  {
    var k := i * m + j;
    DivMod(k, m);
    var q, r := k / m, k % m;
    if q > i {
      assert q * m >= (i + 1) * m by { MulMono(i + 1, q, m); }
    } else if q < i {
      assert (q + 1) * m <= i * m by { MulMono(q + 1, i, m); }
    }
  }

  /** `a <= b` implies `a * m <= b * m` for `m >= 0`. */
  lemma MulMono(a: int, b: int, m: nat)
    requires a <= b
    ensures a * m <= b * m
  {
  }

  /** An index below `n * m` splits into a pair with `i < n` and `j < m`. */
  lemma IndexOfPair(k: nat, n: nat, m: nat)
    requires m > 0 && k < n * m
    ensures k / m < n && k % m < m
    ensures k == (k / m) * m + k % m
  {
    DivMod(k, m);
    if k / m >= n {
      MulMono(n, k / m, m);
    }
  }

  /** The index of a pair `(i, j)` with `i < n`, `j < m` is below `n * m`. */
  lemma PairBound(i: nat, j: nat, n: nat, m: nat)
    requires i < n && j < m
    ensures i * m + j < n * m
  {
    MulMono(i + 1, n, m);
  }

  /** Dividing by `m` places `c` in the `m`-wide interval starting at
      `(c / m) * m`, and in no other such interval. */
  lemma InInterval(c: nat, j: nat, m: nat)
    requires m > 0
    ensures (j * m <= c < j * m + m) <==> c / m == j
  {
    DivMod(c, m);
    if c / m == j {
    } else if j * m <= c < j * m + m {
      PairOfIndex(j, c - j * m, m);
    }
  }

  /** Removing one `m` from `k` lowers the quotient by one and keeps the
      remainder. */
  lemma DivSub(k: int, m: int)
    requires m > 0 && k >= m
    ensures (k - m) / m == k / m - 1 && (k - m) % m == k % m
  {
    DivMod(k, m);
    DivMod(k - m, m);
    var q := k / m;
    PairOfIndex(q - 1, k % m, m);
    assert k - m == (q - 1) * m + k % m;
  }

  /** The smallest multiple count covering `n` decreases by one when `b` is
      removed from `n`. */
  lemma CeilDivStep(n: nat, b: nat)
    requires b > 0 && n > b
    ensures CeilDiv(n, b) == 1 + CeilDiv(n - b, b)
  {
    DivSub(n + b - 1, b);
  }

  lemma CeilDivSmall(n: nat, b: nat)
    requires b > 0 && 0 < n <= b
    ensures CeilDiv(n, b) == 1
  {
    PairOfIndex(1, n - 1, b);
  }

  /** One more row of width `m`. */
  lemma MulSucc(a: int, m: int)
    ensures (a + 1) * m == a * m + m
  {
  }

  /** An index past the first row of an `n`-row grid is an index of the
      remaining `n - 1` rows, one row up. */
  lemma ShiftIndex(k: int, n: int, m: int)
    requires m > 0 && m <= k < n * m
    ensures k - m < (n - 1) * m
    ensures 1 <= k / m < n
    ensures (k - m) / m == k / m - 1 && (k - m) % m == k % m
  {
    MulSucc(n - 1, m);
    DivSub(k, m);
    IndexOfPair(k, n, m);
  }

  lemma Distrib(h: int, a: int, b: int)
    ensures h * a + h * b == h * (a + b)
  {
  }

  /** `total` lines of width `c`, split after the first `h`. */
  lemma SplitProduct(c: int, h: int, total: int)
    ensures h * c + c * (total - h) == c * total
  {
    Distrib(c, h, total - h);
  }

  lemma MulCongr(a: int, b: int, c: int)
    requires b == c
    ensures a * b == a * c
  {
  }

  /** The `j`-th of the `CeilDiv(n, b)` intervals starts inside `[0, n)`. */
  lemma BlockStartInside(n: nat, b: nat, j: nat)
    requires b > 0 && j < CeilDiv(n, b)
    ensures j * b < n
  {
    CeilDivBounds(n, b);
    MulMono(j, CeilDiv(n, b) - 1, b);
  }
}
