/**
 * Value-level meaning of the buffer manipulations of tinyqr.h: the identity,
 * the square transpose, the transpose-copy of the input, the compaction of
 * R and the magnitude cleanup. The methods of module TinyQr are proved to
 * compute exactly these.
 */
module Matrices {
  import opened MatrixIndex
  import opened Givens

  /** A buffer of `len` zeros: std::vector<scalar_t>(len, 0.0). */
  function Zeros(len: nat): (z: seq<real>)
    ensures |z| == len
    ensures forall k :: 0 <= k < len ==> z[k] == 0.0
  {
    seq(len, k => 0.0)
  }

  /** The n-by-n identity, stored with stride n (make_identity). */
  function Identity(n: nat): (id: seq<real>)
    ensures |id| == n * n
  {
    seq(n * n, idx requires 0 <= idx < n * n =>
      if idx / n == idx % n then 1.0 else 0.0)
  }

  /** Entry (i, j) of the identity is 1 exactly on the diagonal. */
  lemma IdentityAt(n: nat, i: nat, j: nat)
    requires i < n && j < n
    ensures i * n + j < n * n
    ensures Identity(n)[i * n + j] == if i == j then 1.0 else 0.0
  {
    FlatBelow(i, j, n, n);
    FlatDivMod(i, j, n);
  }

  /**
   * The buffer with its leading p-by-p block transposed; entries past
   * p * p are left alone (transpose_square never touches them).
   */
  function Transposed(x: seq<real>, p: nat): (t: seq<real>)
    requires p * p <= |x|
    ensures |t| == |x|
  {
    if p == 0 then x else TransposeCopy(x[..p * p], p, p) + x[p * p..]
  }

  /** Entry (i, j) of the transposed block is entry (j, i) of the original. */
  lemma TransposedAt(x: seq<real>, p: nat, i: nat, j: nat)
    requires p * p <= |x| && i < p && j < p
    ensures i * p + j < |x| && j * p + i < |x|
    ensures Transposed(x, p)[i * p + j] == x[j * p + i]
  {
    FlatBelow(i, j, p, p);
    FlatBelow(j, i, p, p);
    var block := x[..p * p];
    TransposeCopyAt(block, p, p, i, j);
    assert (TransposeCopy(block, p, p) + x[p * p..])[i * p + j] == TransposeCopy(block, p, p)[i * p + j];
  }

  /** Cells past the leading block are unchanged. */
  lemma TransposedBeyond(x: seq<real>, p: nat, m: nat)
    requires p * p <= m < |x|
    ensures Transposed(x, p)[m] == x[m]
  {
    if p > 0 {
      var block := x[..p * p];
      assert (TransposeCopy(block, p, p) + x[p * p..])[m] == x[p * p..][m - p * p];
    }
  }

  /** Diagonal entries do not move. */
  lemma TransposedDiagonal(x: seq<real>, p: nat, i: nat)
    requires p * p <= |x| && i < p
    ensures i * p + i < |x|
    ensures Transposed(x, p)[i * p + i] == x[i * p + i]
  {
    TransposedAt(x, p, i, i);
  }

  /** Transposing twice gives back the buffer. */
  lemma TransposedTwice(x: seq<real>, p: nat)
    requires p * p <= |x|
    ensures Transposed(Transposed(x, p), p) == x
  {
    var t := Transposed(x, p);
    var tt := Transposed(t, p);
    forall idx | 0 <= idx < |x|
      ensures tt[idx] == x[idx]
    {
      if idx < p * p {
        FlatSplit(idx, p, p);
        var i, j := idx / p, idx % p;
        TransposedAt(t, p, i, j);
        TransposedAt(x, p, j, i);
      } else {
        TransposedBeyond(t, p, idx);
        TransposedBeyond(x, p, idx);
      }
    }
  }

  /**
   * The transpose-variant copy (tinyqr.h:212-216): X is read with stride n
   * (column j starts at j * n) and written with stride p, row by row.
   */
  function TransposeCopy(x: seq<real>, n: nat, p: nat): (r: seq<real>)
    requires 0 < p && |x| == n * p
    ensures |r| == n * p
  {
    CopiedRows(x, n, p, n)
  }

  /** The first m rows of the copy, p cells each. */
  function CopiedRows(x: seq<real>, n: nat, p: nat, m: nat): (r: seq<real>)
    requires 0 < p && |x| == n * p && m <= n
    ensures |r| == m * p
  {
    if m == 0 then [] else
      assert (m - 1) * p + p == m * p;
      CopiedRows(x, n, p, m - 1) + CopiedRow(x, n, p, m - 1)
  }

  /** Row i of the copy: cell j holds X[j * n + i]. */
  function CopiedRow(x: seq<real>, n: nat, p: nat, i: nat): (row: seq<real>)
    requires 0 < p && |x| == n * p && i < n
    ensures |row| == p
  {
    seq(p, j requires 0 <= j < p =>
      FlatBelow(j, i, n, p);
      x[j * n + i])
  }

  /** Cell (i, j) of the copy, at i * p + j, holds X[j * n + i]. */
  lemma TransposeCopyAt(x: seq<real>, n: nat, p: nat, i: nat, j: nat)
    requires 0 < p && |x| == n * p && i < n && j < p
    ensures i * p + j < n * p && j * n + i < n * p
    ensures TransposeCopy(x, n, p)[i * p + j] == x[j * n + i]
  {
    CopiedRowsAt(x, n, p, n, i, j);
  }

  /** Within the first m rows, cell i * p + j holds X[j * n + i]. */
  lemma {:induction false} CopiedRowsAt(x: seq<real>, n: nat, p: nat, m: nat, i: nat, j: nat)
    requires 0 < p && |x| == n * p && i < m <= n && j < p
    ensures i * p + j < m * p && j * n + i < n * p
    ensures CopiedRows(x, n, p, m)[i * p + j] == x[j * n + i]
  {
    FlatBelow(i, j, p, m);
    FlatBelow(j, i, n, p);
    if i == m - 1 {
      CopiedRowsLast(x, n, p, m, j);
    } else {
      FlatBelow(i, j, p, m - 1);
      CopiedRowsPrefix(x, n, p, m, i * p + j);
      CopiedRowsAt(x, n, p, m - 1, i, j);
    }
  }

  /** The last of m rows is row m - 1 of the copy. */
  lemma CopiedRowsLast(x: seq<real>, n: nat, p: nat, m: nat, j: nat)
    requires 0 < p && |x| == n * p && 0 < m <= n && j < p
    ensures (m - 1) * p + j < m * p
    ensures CopiedRows(x, n, p, m)[(m - 1) * p + j] == CopiedRow(x, n, p, m - 1)[j]
  {
    var prev, row := CopiedRows(x, n, p, m - 1), CopiedRow(x, n, p, m - 1);
    assert CopiedRows(x, n, p, m) == prev + row;
    assert |prev| == (m - 1) * p;
    assert (prev + row)[|prev| + j] == row[j];
  }

  /** Adding a row keeps the rows before it. */
  lemma CopiedRowsPrefix(x: seq<real>, n: nat, p: nat, m: nat, k: nat)
    requires 0 < p && |x| == n * p && 0 < m <= n && k < (m - 1) * p
    ensures k < m * p
    ensures CopiedRows(x, n, p, m)[k] == CopiedRows(x, n, p, m - 1)[k]
  {
  }

  /**
   * The out-of-place gather computed by the compaction (tinyqr.h:222-227):
   * for each i < p in turn, the p cells starting at i * n.
   */
  function Compacted(r: seq<real>, n: nat, p: nat): (out: seq<real>)
    requires 0 < p <= n && |r| == n * p
    ensures |out| == p * p
  {
    CompactedRows(r, n, p, p)
  }

  /** The first m rows of the gather: rows 0..m-1, p cells each. */
  function CompactedRows(r: seq<real>, n: nat, p: nat, m: nat): (out: seq<real>)
    requires 0 < p <= n && |r| == n * p && m <= p
    ensures |out| == m * p
  {
    if m == 0 then [] else
      CompactReadInBounds(n, p, m - 1, p - 1);
      assert (m - 1) * p + p == m * p;
      CompactedRows(r, n, p, m - 1) + r[(m - 1) * n..(m - 1) * n + p]
  }

  /** The cell read for output (i, j) lies inside the n-by-p buffer. */
  lemma CompactReadInBounds(n: nat, p: nat, i: nat, j: nat)
    requires 0 < p <= n && i < p && j < p
    ensures i * n + j < n * p
  {
    FlatBelow(i, j, n, p);
    assert p * n == n * p;
  }

  /** Output cell i * p + j of the compaction holds input cell i * n + j. */
  lemma CompactedAt(r: seq<real>, n: nat, p: nat, i: nat, j: nat)
    requires 0 < p <= n && |r| == n * p && i < p && j < p
    ensures i * p + j < p * p && i * n + j < n * p
    ensures Compacted(r, n, p)[i * p + j] == r[i * n + j]
  {
    FlatBelow(i, j, p, p);
    CompactedRowsAt(r, n, p, p, i, j);
  }

  /** Within the first m rows, output cell i * p + j holds input cell i * n + j. */
  lemma {:induction false} CompactedRowsAt(r: seq<real>, n: nat, p: nat, m: nat, i: nat, j: nat)
    requires 0 < p <= n && |r| == n * p && i < m <= p && j < p
    ensures i * p + j < m * p && i * n + j < n * p
    ensures CompactedRows(r, n, p, m)[i * p + j] == r[i * n + j]
  {
    FlatBelow(i, j, p, m);
    CompactReadInBounds(n, p, i, j);
    if i == m - 1 {
      CompactedRowsLast(r, n, p, m, j);
    } else {
      FlatBelow(i, j, p, m - 1);
      CompactedRowsPrefix(r, n, p, m, i * p + j);
      CompactedRowsAt(r, n, p, m - 1, i, j);
    }
  }

  /** The last of m rows holds the p cells starting at (m - 1) * n. */
  lemma CompactedRowsLast(r: seq<real>, n: nat, p: nat, m: nat, j: nat)
    requires 0 < p <= n && |r| == n * p && 0 < m <= p && j < p
    ensures (m - 1) * p + j < m * p && (m - 1) * n + j < n * p
    ensures CompactedRows(r, n, p, m)[(m - 1) * p + j] == r[(m - 1) * n + j]
  {
    CompactReadInBounds(n, p, m - 1, p - 1);
    var prev := CompactedRows(r, n, p, m - 1);
    var start := (m - 1) * n;
    var row := r[start..start + p];
    assert CompactedRows(r, n, p, m) == prev + row;
    assert |prev| == (m - 1) * p;
    assert (prev + row)[|prev| + j] == row[j] == r[start + j];
  }

  /** Adding a row keeps the rows before it. */
  lemma CompactedRowsPrefix(r: seq<real>, n: nat, p: nat, m: nat, k: nat)
    requires 0 < p <= n && |r| == n * p && 0 < m <= p && k < (m - 1) * p
    ensures k < m * p
    ensures CompactedRows(r, n, p, m)[k] == CompactedRows(r, n, p, m - 1)[k]
  {
  }

  /**
   * The in-place compaction is safe: the cell written for output (i, j),
   * i * p + j, never lies past the cell read for it, i * n + j, so every
   * read sees a value no earlier write has replaced.
   */
  lemma CompactWriteNotPastRead(n: nat, p: nat, i: nat, j: nat)
    requires p <= n
    ensures i * p + j <= i * n + j
  {
    MulLess(p, n, i + 1);
    assert i * p <= i * n;
  }

  /**
   * The cleanup pass (tinyqr.h:137-141): every entry whose magnitude is
   * below tol is replaced by 0; afterwards every entry is 0 or has
   * magnitude at least tol, entries at or above tol are kept, and nothing
   * is ever changed into anything but 0.
   */
  function Thresholded(r: seq<real>, tol: real): (out: seq<real>)
    ensures |out| == |r|
    ensures forall k :: 0 <= k < |r| ==> out[k] == 0.0 || Abs(out[k]) >= tol
    ensures forall k :: 0 <= k < |r| ==> out[k] == r[k] || out[k] == 0.0
    ensures forall k :: 0 <= k < |r| && Abs(r[k]) >= tol ==> out[k] == r[k]
  {
    seq(|r|, k requires 0 <= k < |r| => if Abs(r[k]) < tol then 0.0 else r[k])
  }

  /** An entry is zeroed exactly when its magnitude is below tol. */
  lemma ThresholdedZeroes(r: seq<real>, tol: real, k: nat)
    requires k < |r| && r[k] != 0.0
    ensures Thresholded(r, tol)[k] == 0.0 <==> Abs(r[k]) < tol
  {
  }

  /** Cleaning twice is cleaning once. */
  lemma ThresholdedIdempotent(r: seq<real>, tol: real)
    ensures Thresholded(Thresholded(r, tol), tol) == Thresholded(r, tol)
  {
  }
}
