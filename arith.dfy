/** Facts about division and remainder that the row-major layouts rely on. */
module Arith {

  lemma MulMono(a: int, b: int, n: int)
    requires a <= b && n >= 0
    ensures a * n <= b * n
  {
  }

  /** Quotient and remainder of `q * n + r` when `r < n`. */
  lemma DivModOf(q: nat, r: nat, n: nat)
    requires r < n
    ensures (q * n + r) / n == q && (q * n + r) % n == r
  {
    var k := q * n + r;
    var q', r' := k / n, k % n;
    assert (q - q') * n == r' - r;
    if q > q' { MulMono(1, q - q', n); }
    if q' > q { MulMono(1, q' - q, n); }
  }

  /** An index below `m * n` has a quotient by `n` below `m`. */
  lemma DivBelow(i: nat, n: nat, m: nat)
    requires n > 0 && i < m * n
    ensures i / n < m
  {
    var q := i / n;
    assert q * n <= i;
    if q >= m { MulMono(m, q, n); }
  }

  /** Of two indexes, the smaller has the smaller quotient, or the same quotient and a smaller remainder. */
  lemma DivOrder(i: nat, j: nat, n: nat)
    requires n > 0 && i < j
    ensures i / n < j / n || (i / n == j / n && i % n < j % n)
  {
    var qi, qj := i / n, j / n;
    if qi > qj {
      MulMono(qj + 1, qi, n);
    }
  }

  /** Cell `q * n + r` of an `n x n` grid, with `q, r < n`, is inside the grid and splits back into `q` and `r`. */
  lemma GridIndex(q: nat, r: nat, n: nat)
    requires q < n && r < n
    ensures q * n + r < n * n
    ensures (q * n + r) / n == q && (q * n + r) % n == r
  {
    DivModOf(q, r, n);
    MulMono(q + 1, n, n);
  }

  /** An index of an `n x n` grid splits into a quotient and a remainder below `n`. */
  lemma GridSplit(k: nat, n: nat)
    requires n > 0 && k < n * n
    ensures k / n < n && k % n < n && k == (k / n) * n + k % n
  {
    DivBelow(k, n, n);
  }

  lemma MulPositive(a: nat, b: nat)
    ensures a >= 1 && b >= 1 ==> a * b >= 1
  {
    if a >= 1 && b >= 1 {
      MulMono(1, a, b);
    }
  }

  /** Dropping the first row of `n` entries from an index below `m * n`. */
  lemma RowStep(i: nat, m: nat, n: nat)
    requires n > 0 && n <= i < m * n
    ensures m >= 1 && i - n < (m - 1) * n
    ensures (i - n) / n + 1 == i / n && (i - n) % n == i % n
  {
    var k := i - n;
    assert (m - 1) * n == m * n - n;
    DivModOf(k / n + 1, k % n, n);
    assert i == (k / n + 1) * n + k % n;
  }

  /** Entry `r` of row `q` in rows of `h` entries, with `w` rows: inside `h * w`, and it splits back. */
  lemma BlockIndex(q: nat, r: nat, h: nat, w: nat)
    requires q < w && r < h
    ensures q * h + r < h * w
    ensures (q * h + r) / h == q && (q * h + r) % h == r
  {
    DivModOf(q, r, h);
    MulMono(q + 1, w, h);
    assert (q + 1) * h == q * h + h;
    assert w * h == h * w;
  }

  /** Two numbers with the same quotient and remainder are equal. */
  lemma DivModEq(a: int, b: int, n: int)
    requires n > 0 && a / n == b / n && a % n == b % n
    ensures a == b
  {
    assert a == (a / n) * n + a % n;
    assert b == (b / n) * n + b % n;
  }

  /** A multiple of `n` is its quotient times `n`. */
  lemma ExactMultiple(x: nat, n: nat)
    requires n > 0 && x % n == 0
    ensures (x / n) * n == x
  {
  }

  lemma MulNat(a: nat, b: nat)
    ensures a * b >= 0
  {
  }

  lemma DivModNat(a: nat, n: nat)
    requires n > 0
    ensures a / n >= 0 && 0 <= a % n < n
  {
  }

  /** A quotient below `m` means the number is below `m * n`. */
  lemma BelowMul(i: nat, n: nat, m: nat)
    requires n > 0 && i / n < m
    ensures i < m * n
  {
    var q := i / n;
    assert i == q * n + i % n;
    MulMono(q + 1, m, n);
  }

  /** `v` lies in the `b`-th stretch of `n` numbers exactly when its quotient by `n` is `b`. */
  lemma InStretch(n: nat, b: nat, v: nat)
    requires n > 0
    ensures (b * n <= v < b * n + n) <==> v / n == b
  {
    if b * n <= v < b * n + n {
      DivModOf(b, v - b * n, n);
    }
    if v / n == b {
      assert v == b * n + v % n;
    }
  }
}
