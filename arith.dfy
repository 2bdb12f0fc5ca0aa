/** Integer facts shared by the two index computations. All operands here are
    non-negative, where Kotlin's truncating `/` and `%` agree with Dafny's. */
module Arith {

  /** Dividing `q * m + rem` by `m` gives back `q` and `rem`. */
  lemma DivModUnique(q: int, m: int, rem: int)
    requires m >= 1 && 0 <= rem < m
    ensures (q * m + rem) / m == q
    ensures (q * m + rem) % m == rem
  {
    var x := q * m + rem;
    var y := x / m;
    if y > q {
      assert (q + 1) * m == q * m + m;
      MulMono(q + 1, y, m);
    } else if y < q {
      assert (y + 1) * m == y * m + m;
      MulMono(y + 1, q, m);
    }
  }

  /** Multiplying by a natural keeps the order. */
  lemma MulMono(a: int, b: int, m: int)
    requires a <= b && m >= 0
    ensures a * m <= b * m
  {
    assert b * m - a * m == (b - a) * m;
  }

  /** A flat index splits into a row and a column of a `w`-wide image, and
      the row is below `h` exactly when the index is below `w * h`. */
  lemma RowColumn(n: int, w: int, h: int)
    requires n >= 0 && w >= 1 && h >= 1
    ensures 0 <= n % w < w && n / w >= 0
    ensures n / w * w + n % w == n
    ensures n / w < h <==> n < w * h
  {
    var y := n / w;
    if y < h {
      MulMono(y, h - 1, w);
      MulStep(w, h);
    } else {
      MulMono(h, y, w);
    }
  }

  /** Products of naturals stay below the product of their bounds. */
  lemma MulBelow(a: int, b: int, m: int, n: int)
    requires 0 <= a < m && 0 <= b < n
    ensures 0 <= a * b < m * n
    ensures a * n + b < m * n
  {
    assert a * n <= (m - 1) * n;
    assert (m - 1) * n == m * n - n;
  }

  /** One more factor of `a`. */
  lemma MulStep(a: int, n: int)
    ensures a * n == a * (n - 1) + a
  {
  }

  /** Dividing keeps the order of naturals. */
  lemma DivMono(a: int, b: int, m: int)
    requires 0 <= a <= b && m >= 1
    ensures 0 <= a / m <= b / m
  {
    var qa, qb := a / m, b / m;
    if qa > qb {
      MulMono(qb + 1, qa, m);
      MulStep(m, qb + 1);
    }
  }
}
