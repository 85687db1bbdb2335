/**
 * Small facts about multiplication used by the layout and indexing proofs:
 * row-major positions `w * row + col` with `0 <= col < w` are unique.
 */
module Arith {

  lemma MulLe(w: int, x: int, y: int)
    requires w >= 0 && x <= y
    ensures w * x <= w * y
  {
    assert w * y - w * x == w * (y - x);
  }

  lemma MulLt(w: int, x: int, y: int)
    requires w > 0 && x < y
    ensures w * x + w <= w * y
  {
    MulLe(w, x + 1, y);
    assert w * (x + 1) == w * x + w;
  }

  /** A row-major position determines its row and column. */
  lemma RowMajorUnique(w: int, a: int, b: int, c: int, d: int)
    requires w > 0
    requires 0 <= b < w && 0 <= d < w
    requires w * a + b == w * c + d
    ensures a == c && b == d
  {
    if a < c {
      MulLt(w, a, c);
    } else if c < a {
      MulLt(w, c, a);
    }
  }

  /** Rows `0 <= a < h` of width `w` fit below `w * h`. */
  lemma RowMajorBound(w: int, h: int, a: int, b: int)
    requires w > 0 && 0 <= a < h && 0 <= b < w
    ensures 0 <= w * a + b < w * h
  {
    MulLt(w, a, h);
    MulLe(w, 0, a);
  }

  /** Euclidean division splits a position back into its row and column. */
  lemma RowMajorSplit(w: int, h: int, k: int)
    requires w > 0 && 0 <= k < w * h
    ensures 0 <= k / w < h && 0 <= k % w < w
    ensures k == w * (k / w) + k % w
  {
    var q := k / w;
    assert k == w * q + k % w;
    if q >= h {
      MulLe(w, h, q);
    }
    if q < 0 {
      MulLt(w, q, 0);
    }
  }

  /** Euclidean division of a row-major position recovers its row and column. */
  lemma DivModOfRow(m: int, q: int, r: int)
    requires m > 0 && 0 <= r < m
    ensures (m * q + r) / m == q && (m * q + r) % m == r
  {
    var k := m * q + r;
    assert k == m * (k / m) + k % m;
    RowMajorUnique(m, k / m, k % m, q, r);
  }

  /** Adding the modulus does not change the remainder. */
  lemma ModShift(x: int, m: int)
    requires m > 0
    ensures (x + m) % m == x % m
  {
    assert x == m * (x / m) + x % m;
    assert x + m == m * (x / m + 1) + x % m;
    DivModOfRow(m, x / m + 1, x % m);
  }

  /** Values one modulus apart have the same remainder. */
  lemma ModStep(x: int, y: int, m: int)
    requires m > 0 && y == x + m
    ensures y % m == x % m
  {
    ModShift(x, m);
  }

  /** Two values with the same remainder that are less than the modulus apart are equal. */
  lemma CongruentClose(x: int, y: int, m: int)
    requires m > 0 && x % m == y % m && x - m < y < x + m
    ensures x == y
  {
    var qx, qy := x / m, y / m;
    assert x == m * qx + x % m;
    assert y == m * qy + y % m;
    if qx < qy {
      MulLt(m, qx, qy);
    } else if qy < qx {
      MulLt(m, qy, qx);
    }
  }

  /** n - n % m is a multiple of m within m of n. */
  lemma RoundDown(n: int, m: int)
    requires m > 0
    ensures (n - n % m) % m == 0 && n - m < n - n % m <= n
  {
    assert n == m * (n / m) + n % m;
    DivModOfRow(m, n / m, 0);
  }
}
