/**
 * Index arithmetic of dense matrices stored in one flat buffer, the way
 * tinyqr.h addresses every matrix: entry (a, b) of a matrix with stride m
 * lives at index a * m + b.
 */
module MatrixIndex {

  /** Dividing a flat index by the stride recovers the two coordinates. */
  lemma FlatDivMod(a: int, b: int, m: int)
    requires 0 <= a && 0 <= b < m
    ensures (a * m + b) / m == a
    ensures (a * m + b) % m == b
  {
    var q, r := (a * m + b) / m, (a * m + b) % m;
    assert q * m + r == a * m + b;
    if q < a {
      MulLess(q + 1, a, m);
      assert false;
    } else if q > a {
      MulLess(a + 1, q, m);
      assert false;
    }
  }

  /** Multiplication by a positive stride is monotone. */
  lemma MulLess(x: int, y: int, m: int)
    requires x <= y && 0 < m
    ensures x * m <= y * m
  {
    assert y * m - x * m == (y - x) * m;
  }

  /** A flat index built from in-range coordinates is inside the buffer. */
  lemma FlatBelow(a: int, b: int, m: int, rows: int)
    requires 0 <= a < rows && 0 <= b < m
    ensures 0 <= a * m + b < rows * m
  {
    MulLess(a + 1, rows, m);
    MulLess(0, a, m);
  }

  /** Every index of a rows-by-m buffer splits into in-range coordinates. */
  lemma FlatSplit(idx: int, m: int, rows: int)
    requires 0 <= idx < rows * m && 0 < m
    ensures 0 <= idx / m < rows && 0 <= idx % m < m
    ensures idx == (idx / m) * m + idx % m
  {
    if idx / m >= rows {
      MulLess(rows, idx / m, m);
      assert false;
    }
  }

  /** Two in-range coordinate pairs with the same flat index are equal. */
  lemma FlatInjective(a: int, b: int, a': int, b': int, m: int)
    requires 0 <= a && 0 <= b < m && 0 <= a' && 0 <= b' < m
    ensures a * m + b == a' * m + b' <==> a == a' && b == b'
  {
    FlatDivMod(a, b, m);
    FlatDivMod(a', b', m);
  }
}
