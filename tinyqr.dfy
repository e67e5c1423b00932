/**
 * The buffer-manipulating routines of tinyqr.h as imperative code over
 * arrays, each proved to compute the value-level function of modules
 * Matrices, Elimination and Facade that describes it.
 */
module TinyQr {
  import opened MatrixIndex
  import opened Layout
  import opened Givens
  import opened Matrices
  import opened Elimination
  import opened Facade

  /** Entry (a, b) of a buffer with stride m. */
  function Entry(x: seq<real>, m: nat, a: nat, b: nat): real
    requires a < m && b < m && m * m <= |x|
  {
    FlatBelow(a, b, m, m);
    x[a * m + b]
  }

  /**
   * Whether transpose_square has already swapped the pair of entries
   * (a, b) and (b, a) once its counters read i and j: the pair is off the
   * diagonal, and its smaller coordinate lo is below i, or equals i with
   * the larger one below j.
   */
  predicate SwappedBy(i: nat, j: nat, a: nat, b: nat)
  {
    var lo, hi := if a < b then a else b, if a < b then b else a;
    lo < hi && (lo < i || (lo == i && hi < j))
  }

  /** Swapping the cells of (i, j) and (j, i) exchanges those two entries and nothing else. */
  lemma SwapEntries(x: seq<real>, p: nat, i: nat, j: nat)
    requires i < p && j < p && p * p <= |x|
    ensures i * p + j < |x| && j * p + i < |x|
    ensures var t := x[j * p + i := x[i * p + j]][i * p + j := x[j * p + i]];
      (forall a: nat, b: nat :: a < p && b < p ==>
        Entry(t, p, a, b) ==
          if a == j && b == i then Entry(x, p, i, j)
          else if a == i && b == j then Entry(x, p, j, i)
          else Entry(x, p, a, b)) &&
      (forall m :: p * p <= m < |x| ==> t[m] == x[m])
  {
    FlatBelow(i, j, p, p);
    FlatBelow(j, i, p, p);
    var t := x[j * p + i := x[i * p + j]][i * p + j := x[j * p + i]];
    forall a: nat, b: nat | a < p && b < p
      ensures Entry(t, p, a, b) ==
          if a == j && b == i then Entry(x, p, i, j)
          else if a == i && b == j then Entry(x, p, j, i)
          else Entry(x, p, a, b)
    {
      FlatBelow(a, b, p, p);
      SwapEntry(x, p, i * p + j, j * p + i, a * p + b);
      FlatInjective(a, b, i, j, p);
      FlatInjective(a, b, j, i, p);
    }
  }

  /** Reading cell m after cells u and w traded places. */
  lemma SwapEntry(x: seq<real>, p: nat, u: nat, w: nat, m: nat)
    requires u < |x| && w < |x| && m < |x|
    ensures x[w := x[u]][u := x[w]][m] == if m == u then x[w] else if m == w then x[u] else x[m]
  {
  }

  /**
   * The buffer of transpose_square once its counters read i and j: the
   * pairs SwappedBy(i, j) hold their mirrored original entries, every
   * other entry and every cell past p * p its original one.
   */
  predicate TransposedUpTo(x: seq<real>, x0: seq<real>, p: nat, i: nat, j: nat)
  {
    p * p <= |x| == |x0| &&
    (forall a: nat, b: nat :: a < p && b < p ==>
      Entry(x, p, a, b) == if SwappedBy(i, j, a, b) then Entry(x0, p, b, a) else Entry(x0, p, a, b)) &&
    (forall m :: p * p <= m < |x| ==> x[m] == x0[m])
  }

  /**
   * transpose_square (tinyqr.h:51-57): in place, for every i < p and every
   * j from i + 1 to p - 1, the cells j * p + i and i * p + j are swapped.
   * The leading p-by-p block ends up transposed.
   */
  method TransposeSquare(x: array<real>, p: nat)
    requires p * p <= x.Length
    modifies x
    ensures x[..] == Transposed(old(x[..]), p)
  {
    ghost var x0 := x[..];
    var i := 0;
    while i < p
      invariant 0 <= i <= p
      invariant TransposedUpTo(x[..], x0, p, i, i + 1)
    {
      SwapRow(x, p, i, x0);
      i := i + 1;
    }
    EntriesTransposed(x[..], x0, p);
  }

  /** The inner loop of transpose_square for row i: j runs from i + 1 to p - 1. */
  method SwapRow(x: array<real>, p: nat, i: nat, ghost x0: seq<real>)
    requires i < p && TransposedUpTo(x[..], x0, p, i, i + 1)
    modifies x
    ensures TransposedUpTo(x[..], x0, p, i + 1, i + 2)
  {
    var j := i + 1;
    while j < p
      invariant i + 1 <= j <= p
      invariant TransposedUpTo(x[..], x0, p, i, j)
    {
      ghost var prev := x[..];
      SwapAdvances(prev, x0, p, i, j);
      x[j * p + i], x[i * p + j] := x[i * p + j], x[j * p + i];
      assert x[..] == prev[j * p + i := prev[i * p + j]][i * p + j := prev[j * p + i]];
      j := j + 1;
    }
  }

  /** One swap of the inner loop moves the buffer from counter j to j + 1. */
  lemma SwapAdvances(x: seq<real>, x0: seq<real>, p: nat, i: nat, j: nat)
    requires i < j < p && TransposedUpTo(x, x0, p, i, j)
    ensures i * p + j < |x| && j * p + i < |x| && i * p + j != j * p + i
    ensures TransposedUpTo(x[j * p + i := x[i * p + j]][i * p + j := x[j * p + i]], x0, p, i, j + 1)
  {
    SwapEntries(x, p, i, j);
    FlatInjective(j, i, i, j, p);
  }

  /** A buffer whose entries are those of x0 mirrored, and equal past p * p, is x0 transposed. */
  lemma EntriesTransposed(x: seq<real>, x0: seq<real>, p: nat)
    requires TransposedUpTo(x, x0, p, p, p + 1)
    ensures x == Transposed(x0, p)
  {
    forall m | 0 <= m < |x|
      ensures x[m] == Transposed(x0, p)[m]
    {
      if m < p * p {
        FlatSplit(m, p, p);
        var a, b := m / p, m % p;
        TransposedAt(x0, p, a, b);
        assert Entry(x, p, a, b) == x[m] == Entry(x0, p, b, a);
      } else {
        TransposedBeyond(x0, p, m);
      }
    }
  }

  /**
   * make_identity (tinyqr.h:59-63): a fresh n * n buffer of zeros whose
   * cells i * n + i are then set to 1.
   */
  method MakeIdentity(n: nat) returns (result: array<real>)
    ensures fresh(result)
    ensures result[..] == Identity(n)
  {
    result := new real[n * n](_ => 0.0);
    var i := 0;
    while i < n
      invariant 0 <= i <= n && result.Length == n * n
      invariant forall m :: 0 <= m < n * n ==>
        result[m] == if m / n == m % n && m / n < i then 1.0 else 0.0
    {
      FlatBelow(i, i, n, n);
      FlatDivMod(i, i, n);
      forall m | 0 <= m < n * n && m != i * n + i
        ensures !(m / n == i && m % n == i)
      {
        FlatSplit(m, n, n);
      }
      result[i * n + i] := 1.0;
      i := i + 1;
    }
    forall m | 0 <= m < n * n
      ensures result[m] == Identity(n)[m]
    {
      FlatSplit(m, n, n);
    }
    assert result[..] == Identity(n);
  }

  /**
   * The cleanup loop of qr_impl and qr_impl2 (tinyqr.h:137-141, 185-189):
   * each entry of magnitude below tol becomes 0.
   */
  method Cleanup(r: array<real>, tol: real)
    modifies r
    ensures r[..] == Thresholded(old(r[..]), tol)
  {
    ghost var r0 := r[..];
    var k := 0;
    while k < r.Length
      invariant 0 <= k <= r.Length
      invariant forall m :: 0 <= m < k ==> r[m] == Thresholded(r0, tol)[m]
      invariant forall m :: k <= m < r.Length ==> r[m] == r0[m]
    {
      r[k] := if Abs(r[k]) < tol then 0.0 else r[k];
      k := k + 1;
    }
    assert r[..] == Thresholded(r0, tol);
  }

  /**
   * The body shared by the four k loops: cells x and y are read into two
   * temporaries and then overwritten, x first, with two blends of them.
   */
  method RotatePair(a: array<real>, x: nat, y: nat, c1: real, s1: real, c2: real, s2: real)
    requires x < a.Length && y < a.Length && x != y
    modifies a
    ensures a[..] == old(a[..])[x := Blend(c1, old(a[x]), s1, old(a[y]))][y := Blend(c2, old(a[x]), s2, old(a[y]))]
  {
    ghost var a0 := a[..];
    var temp1 := a[x];
    var temp2 := a[y];
    var hi, lo := c1 * temp1 + s1 * temp2, c2 * temp1 + s2 * temp2;
    assert hi == Blend(c1, temp1, s1, temp2) && lo == Blend(c2, temp1, s2, temp2);
    a[x] := hi;
    a[y] := lo;
    assert a[..] == a0[x := hi][y := lo];
  }

  /**
   * The R loop of one qr_impl step (tinyqr.h:113-122): for every column k,
   * cells k * n + (i - 1) and k * n + i (rows i - 1 and i, stride n) are
   * rotated.
   */
  method RotateRowsBaseline(r: array<real>, n: nat, p: nat, i: nat, c: real, s: real)
    requires 0 < i < n && r.Length == n * p
    modifies r
    ensures r[..] == RotateRowsUpTo(Baseline, n, p, old(r[..]), i, c, s, p)
  {
    ghost var r0 := r[..];
    var k := 0;
    while k < p
      invariant 0 <= k <= p
      invariant r[..] == RotateRowsUpTo(Baseline, n, p, r0, i, c, s, k)
    {
      var upper := k * n + (i - 1);
      var lower := k * n + i;
      BaselineRowCells(n, p, i, k);
      RotateRowsNext(Baseline, n, p, r0, i, c, s, k, upper, lower);
      RotatePair(r, upper, lower, c, s, -s, c);
      k := k + 1;
    }
  }

  /**
   * The Q loop of one qr_impl step (tinyqr.h:123-132): for every k, cells
   * k * n + i and k * n + i - 1 (lines i and i - 1, stride n) are rotated.
   */
  method RotateLinesBaseline(q: array<real>, n: nat, i: nat, c: real, s: real)
    requires 0 < i < n && q.Length == n * n
    modifies q
    ensures q[..] == RotateLinesUpTo(Baseline, n, old(q[..]), i, c, s, n)
  {
    ghost var q0 := q[..];
    var k := 0;
    while k < n
      invariant 0 <= k <= n
      invariant q[..] == RotateLinesUpTo(Baseline, n, q0, i, c, s, k)
    {
      var upper := k * n + i;
      var lower := k * n + i - 1;
      BaselineLineCells(n, i, k);
      RotateLinesNext(Baseline, n, q0, i, c, s, k, upper, lower);
      RotatePair(q, upper, lower, c, -s, s, c);
      k := k + 1;
    }
  }

  /**
   * The R loop of one qr_impl2 step (tinyqr.h:161-170): for every column k,
   * cells (i - 1) * p + k and i * p + k (rows i - 1 and i, stride p) are
   * rotated, row i - 1 written first.
   */
  method RotateRowsTranspose(r: array<real>, n: nat, p: nat, i: nat, c: real, s: real)
    requires 0 < i < n && r.Length == n * p
    modifies r
    ensures r[..] == RotateRowsUpTo(Transpose, n, p, old(r[..]), i, c, s, p)
  {
    ghost var r0 := r[..];
    var k := 0;
    while k < p
      invariant 0 <= k <= p
      invariant r[..] == RotateRowsUpTo(Transpose, n, p, r0, i, c, s, k)
    {
      var upper := i * p + k;
      var lower := (i - 1) * p + k;
      TransposeRowCells(n, p, i, k);
      RotateRowsNext(Transpose, n, p, r0, i, c, s, k, lower, upper);
      RotatePair(r, lower, upper, c, s, -s, c);
      k := k + 1;
    }
  }

  /**
   * The Q loop of one qr_impl2 step (tinyqr.h:171-180): for every k, cells
   * i * n + k and (i - 1) * n + k (lines i and i - 1, stride 1) are rotated.
   */
  method RotateLinesTranspose(q: array<real>, n: nat, i: nat, c: real, s: real)
    requires 0 < i < n && q.Length == n * n
    modifies q
    ensures q[..] == RotateLinesUpTo(Transpose, n, old(q[..]), i, c, s, n)
  {
    ghost var q0 := q[..];
    var k := 0;
    while k < n
      invariant 0 <= k <= n
      invariant q[..] == RotateLinesUpTo(Transpose, n, q0, i, c, s, k)
    {
      var upper := i * n + k;
      var lower := (i - 1) * n + k;
      TransposeLineCells(n, i, k);
      RotateLinesNext(Transpose, n, q0, i, c, s, k, upper, lower);
      RotatePair(q, upper, lower, c, -s, s, c);
      k := k + 1;
    }
  }

  /**
   * The cells qr_impl touches are those of rows i - 1 and i of column k of
   * R, and of lines i and i - 1 at position k of Q, all in bounds
   * (tinyqr.h:115-116, 125-126).
   */
  lemma BaselineRowCells(n: nat, p: nat, i: nat, k: nat)
    requires 0 < i < n && k < p
    ensures k * n + (i - 1) == RIndex(Baseline, n, p, i - 1, k) < n * p
    ensures k * n + i == RIndex(Baseline, n, p, i, k) < n * p
  {
  }

  lemma BaselineLineCells(n: nat, i: nat, k: nat)
    requires 0 < i < n && k < n
    ensures k * n + i == QIndex(Baseline, n, i, k) < n * n
    ensures k * n + i - 1 == QIndex(Baseline, n, i - 1, k) < n * n
  {
  }

  /**
   * The cells qr_impl2 touches: rows i - 1 and i of R at column k with
   * stride p, lines i and i - 1 of Q at position k (tinyqr.h:163-164,
   * 173-174), all in bounds.
   */
  lemma TransposeRowCells(n: nat, p: nat, i: nat, k: nat)
    requires 0 < i < n && k < p
    ensures (i - 1) * p + k == RIndex(Transpose, n, p, i - 1, k) < n * p
    ensures i * p + k == RIndex(Transpose, n, p, i, k) < n * p
  {
  }

  lemma TransposeLineCells(n: nat, i: nat, k: nat)
    requires 0 < i < n && k < n
    ensures i * n + k == QIndex(Transpose, n, i, k) < n * n
    ensures (i - 1) * n + k == QIndex(Transpose, n, i - 1, k) < n * n
  {
  }

  /**
   * One iteration of the i loop of qr_impl (tinyqr.h:103-133): skipped when
   * |R(i, j)| <= tiny, otherwise the rotation of R(i - 1, j), R(i, j)
   * applied to rows i - 1, i of R and lines i - 1, i of Q.
   */
  method EliminateBaseline(q: array<real>, r: array<real>, n: nat, p: nat, i: nat, j: nat, tiny: real, invSqrt: real -> real)
    requires q.Length == n * n && r.Length == n * p && q != r
    requires j < p && j < i < n && 0.0 < tiny
    modifies q, r
    ensures QR(q[..], r[..]) == Step(Baseline, n, p, tiny, invSqrt, QR(old(q[..]), old(r[..])), Site(i, j))
  {
    BaselineRowCells(n, p, i, j);
    if Abs(r[j * n + i]) > tiny {
      var (c, s) := GivensRotation(r[(j * n) + (i - 1)], r[j * n + i], invSqrt);
      RotateRowsBaseline(r, n, p, i, c, s);
      RotateLinesBaseline(q, n, i, c, s);
    }
  }

  /**
   * One iteration of the i loop of qr_impl2 (tinyqr.h:150-181): skipped when
   * |R(i, j)| <= tiny, otherwise the rotation of R(i - 1, j), R(i, j)
   * applied to rows i - 1, i of R and lines i - 1, i of Q.
   */
  method EliminateTranspose(q: array<real>, r: array<real>, n: nat, p: nat, i: nat, j: nat, tiny: real, invSqrt: real -> real)
    requires q.Length == n * n && r.Length == n * p && q != r
    requires j < p && j < i < n && 0.0 < tiny
    modifies q, r
    ensures QR(q[..], r[..]) == Step(Transpose, n, p, tiny, invSqrt, QR(old(q[..]), old(r[..])), Site(i, j))
  {
    TransposeRowCells(n, p, i, j);
    if Abs(r[i * p + j]) > tiny {
      var (c, s) := GivensRotation(r[(i - 1) * p + j], r[i * p + j], invSqrt);
      RotateRowsTranspose(r, n, p, i, c, s);
      RotateLinesTranspose(q, n, i, c, s);
    }
  }

  /** One iteration of the i loop, in the layout of the variant v. */
  method Eliminate(v: Variant, q: array<real>, r: array<real>, n: nat, p: nat, i: nat, j: nat, tiny: real, invSqrt: real -> real)
    requires q.Length == n * n && r.Length == n * p && q != r
    requires j < p && j < i < n && 0.0 < tiny
    modifies q, r
    ensures QR(q[..], r[..]) == Step(v, n, p, tiny, invSqrt, QR(old(q[..]), old(r[..])), Site(i, j))
  {
    match v {
      case Baseline => EliminateBaseline(q, r, n, p, i, j, tiny, invSqrt);
      case Transpose => EliminateTranspose(q, r, n, p, i, j, tiny, invSqrt);
    }
  }

  /**
   * One iteration of the row loop, counter update included: step (i, j)
   * extends the steps taken so far, and the counter moves to i - 1.
   */
  method SweepStep(v: Variant, q: array<real>, r: array<real>, n: nat, p: nat, i: nat, j: nat, tiny: real, invSqrt: real -> real, ghost st0: QR)
      returns (i': nat)
    requires q.Length == n * n && r.Length == n * p && q != r
    requires j < p && j < i <= n - 1 && 0.0 < tiny
    requires Reached(v, n, p, tiny, invSqrt, st0, Taken(n, j, i), QR(q[..], r[..]))
    modifies q, r
    ensures i' == i - 1
    ensures Reached(v, n, p, tiny, invSqrt, st0, Taken(n, j, i'), QR(q[..], r[..]))
  {
    ghost var st := QR(q[..], r[..]);
    ReachedStep(v, n, p, tiny, invSqrt, st0, j, i, st);
    Eliminate(v, q, r, n, p, i, j, tiny, invSqrt);
    ghost var st' := QR(q[..], r[..]);
    assert st' == Step(v, n, p, tiny, invSqrt, st, Site(i, j));
    i' := i - 1;
    assert Reached(v, n, p, tiny, invSqrt, st0, Taken(n, j, i'), st');
  }

  /**
   * The row loop shared by qr_impl and qr_impl2 (tinyqr.h:103, 150):
   * within column j, row i descends from n - 1 to j + 1, one elimination
   * step each, so the steps of column j follow those of the earlier
   * columns.
   */
  method SweepColumn(v: Variant, q: array<real>, r: array<real>, n: nat, p: nat, j: nat, tiny: real, invSqrt: real -> real, ghost st0: QR)
    requires q.Length == n * n && r.Length == n * p && q != r
    requires j < p && 0 < n && 0.0 < tiny
    requires Reached(v, n, p, tiny, invSqrt, st0, ScheduleUpTo(n, j), QR(q[..], r[..]))
    modifies q, r
    ensures Reached(v, n, p, tiny, invSqrt, st0, ScheduleUpTo(n, j + 1), QR(q[..], r[..]))
  {
    var i := n - 1;
    ReachedColumnStart(v, n, p, tiny, invSqrt, st0, j, QR(q[..], r[..]));
    while i > j
      invariant i <= n - 1 && (j <= i || i == n - 1)
      invariant Reached(v, n, p, tiny, invSqrt, st0, Taken(n, j, i), QR(q[..], r[..]))
    {
      i := SweepStep(v, q, r, n, p, i, j, tiny, invSqrt, st0);
    }
    ReachedColumnEnd(v, n, p, tiny, invSqrt, st0, j, i, QR(q[..], r[..]));
  }

  /**
   * The loop control shared by qr_impl and qr_impl2 (tinyqr.h:102-103,
   * 149-150): column j ascending from 0 to p - 1 and, within it, row i
   * descending from n - 1 to j + 1. Q and R end up as the value-level
   * sweep, step by step in schedule order.
   */
  method SweepLoops(v: Variant, q: array<real>, r: array<real>, n: nat, p: nat, tiny: real, invSqrt: real -> real)
    requires q.Length == n * n && r.Length == n * p && q != r
    requires 0 < n || p == 0
    requires 0.0 < tiny
    modifies q, r
    ensures QR(q[..], r[..]) == Sweep(v, n, p, tiny, invSqrt, QR(old(q[..]), old(r[..])))
  {
    ghost var st0 := QR(q[..], r[..]);
    ReachedStart(v, n, p, tiny, invSqrt, st0);
    var j := 0;
    while j < p
      invariant 0 <= j <= p
      invariant Reached(v, n, p, tiny, invSqrt, st0, ScheduleUpTo(n, j), QR(q[..], r[..]))
    {
      SweepColumn(v, q, r, n, p, j, tiny, invSqrt, st0);
      j := j + 1;
    }
  }

  /**
   * qr_impl (tinyqr.h:97-142) with the cleanup flag as a parameter: the
   * sweep in the column-major (stride n) layout of R, every step skipped
   * when |R(i, j)| <= tiny (the smallest positive scalar) and otherwise
   * rotating rows i - 1, i of R and lines i - 1, i of Q; then, with
   * cleanup, R thresholded at tol.
   */
  method QrImpl(q: array<real>, r: array<real>, n: nat, p: nat, tol: real, cleanup: bool, tiny: real, invSqrt: real -> real)
    requires q.Length == n * n && r.Length == n * p && q != r
    requires 0 < n || p == 0
    requires 0.0 < tiny
    modifies q, r
    ensures QR(q[..], r[..]) == SweepAndClean(Baseline, n, p, tol, cleanup, tiny, invSqrt, QR(old(q[..]), old(r[..])))
  {
    SweepLoops(Baseline, q, r, n, p, tiny, invSqrt);
    if cleanup {
      Cleanup(r, tol);
    }
  }

  /**
   * qr_impl2 (tinyqr.h:144-190) with the cleanup flag as a parameter: the
   * sweep in the row-major (stride p) layout of R, every step skipped
   * when |R(i, j)| <= tiny (the smallest positive scalar) and otherwise
   * rotating rows i - 1, i of R and lines i - 1, i of Q; then, with
   * cleanup, R thresholded at tol.
   */
  method QrImpl2(q: array<real>, r: array<real>, n: nat, p: nat, tol: real, cleanup: bool, tiny: real, invSqrt: real -> real)
    requires q.Length == n * n && r.Length == n * p && q != r
    requires 0 < n || p == 0
    requires 0.0 < tiny
    modifies q, r
    ensures QR(q[..], r[..]) == SweepAndClean(Transpose, n, p, tol, cleanup, tiny, invSqrt, QR(old(q[..]), old(r[..])))
  {
    SweepLoops(Transpose, q, r, n, p, tiny, invSqrt);
    if cleanup {
      Cleanup(r, tol);
    }
  }

  /**
   * The copy loop of the transpose variant of qr_decomposition
   * (tinyqr.h:212-216): for i < n and j < p, cell i * p + j of R receives
   * X[j * n + i].
   */
  method TransposeInto(r: array<real>, x: seq<real>, n: nat, p: nat)
    requires 0 < p && |x| == n * p && r.Length == n * p
    modifies r
    ensures r[..] == TransposeCopy(x, n, p)
  {
    ghost var out := TransposeCopy(x, n, p);
    var i := 0;
    while i < n
      invariant 0 <= i <= n && i * p <= n * p
      invariant forall m :: 0 <= m < i * p ==> r[m] == out[m]
    {
      CopyRow(r, x, n, p, i);
      assert i * p + p == (i + 1) * p;
      i := i + 1;
      MulLess(i, n, p);
    }
    assert r[..] == out;
  }

  /** The inner loop of the transpose-copy for row i: j runs from 0 to p - 1. */
  method CopyRow(r: array<real>, x: seq<real>, n: nat, p: nat, i: nat)
    requires 0 < p && |x| == n * p && r.Length == n * p && i < n
    requires forall m :: 0 <= m < i * p ==> r[m] == TransposeCopy(x, n, p)[m]
    modifies r
    ensures i * p + p <= n * p
    ensures forall m :: 0 <= m < i * p + p ==> r[m] == TransposeCopy(x, n, p)[m]
  {
    ghost var out := TransposeCopy(x, n, p);
    FlatBelow(i, p - 1, p, n);
    var j := 0;
    while j < p
      invariant 0 <= j <= p
      invariant forall m :: 0 <= m < i * p + j ==> r[m] == out[m]
    {
      TransposeCopyAt(x, n, p, i, j);
      r[i * p + j] := x[j * n + i];
      j := j + 1;
    }
  }

  /**
   * The in-place compaction of qr_decomposition (tinyqr.h:222-227): a
   * running index k walks the first p * p cells while cell i * n + j is
   * copied to cell k = i * p + j. Since k never passes the cell still to
   * be read, the outcome is the out-of-place gather Compacted of the old
   * buffer in the first p * p cells, the rest left as it was.
   */
  method Compact(r: array<real>, n: nat, p: nat)
    requires 0 < p <= n && r.Length == n * p
    modifies r
    ensures p * p <= r.Length
    ensures r[..p * p] == Compacted(old(r[..]), n, p)
    ensures r[p * p..] == old(r[..])[p * p..]
  {
    ghost var r0 := r[..];
    ghost var out := Compacted(r0, n, p);
    MulLess(p, n, p);
    assert p * n == n * p;
    var k := 0;
    var i := 0;
    while i < p
      invariant 0 <= i <= p && k == i * p && k <= p * p
      invariant forall m :: 0 <= m < k ==> r[m] == out[m]
      invariant forall m :: k <= m < r.Length ==> r[m] == r0[m]
    {
      var j := 0;
      while j < p
        invariant 0 <= j <= p && k == i * p + j && k <= p * p
        invariant forall m :: 0 <= m < k ==> r[m] == out[m]
        invariant forall m :: k <= m < r.Length ==> r[m] == r0[m]
      {
        CompactedAt(r0, n, p, i, j);
        CompactWriteNotPastRead(n, p, i, j);
        r[k] := r[i * n + j];
        k := k + 1;
        j := j + 1;
      }
      assert i * p + p == (i + 1) * p;
      i := i + 1;
    }
    assert r[..p * p] == out;
  }

  /**
   * qr_decomposition (tinyqr.h:200-231) with the implementation choice
   * and the smallest positive scalar as parameters: Q starts as the
   * identity and R as zeros; the chosen sweep runs with cleanup (in the
   * baseline branch on a second, local R initialised from X); Q is then
   * transposed in place, R compacted, and both cut to n * p and p * p
   * cells. The result is Decomposition, whose R is all zeros in the
   * baseline branch (BaselineReturnsZeroR).
   */
  method QrDecomposition(x: seq<real>, n: nat, p: nat, tol: real, impl: Variant, tiny: real, invSqrt: real -> real) returns (res: QR)
    requires 0 < p <= n && |x| == n * p && 0.0 < tiny
    ensures res == Decomposition(impl, x, n, p, tol, tiny, invSqrt)
  {
    var q := MakeIdentity(n);
    var r := new real[|x|](_ => 0.0);
    ghost var zeros := r[..];
    assert zeros == Zeros(n * p);
    match impl {
      case Baseline =>
        var r := new real[|x|](k requires 0 <= k < |x| => x[k]);
        assert r[..] == x;
        QrImpl(q, r, n, p, tol, true, tiny, invSqrt);
      case Transpose =>
        TransposeInto(r, x, n, p);
        QrImpl2(q, r, n, p, tol, true, tiny, invSqrt);
    }
    ghost var swept := Swept(impl, x, n, p, tol, tiny, invSqrt);
    assert q[..] == swept.q;
    assert r[..] == if impl == Baseline then Zeros(n * p) else swept.r;
    TransposeSquare(q, n);
    Compact(r, n, p);
    MulLess(p, n, n);
    assert n * p == p * n;
    res := QR(q[..n * p], r[..p * p]);
  }

  /**
   * qr_decomposition with the baseline branch corrected: the baseline
   * sweep runs on the outer R, initialised from X, so the compaction sees
   * the swept R. The transpose branch is unchanged.
   */
  method QrDecompositionUnshadowed(x: seq<real>, n: nat, p: nat, tol: real, impl: Variant, tiny: real, invSqrt: real -> real) returns (res: QR)
    requires 0 < p <= n && |x| == n * p && 0.0 < tiny
    ensures res == DecompositionUnshadowed(impl, x, n, p, tol, tiny, invSqrt)
  {
    var q := MakeIdentity(n);
    var r: array<real>;
    match impl {
      case Baseline =>
        r := new real[|x|](k requires 0 <= k < |x| => x[k]);
        assert r[..] == x;
        QrImpl(q, r, n, p, tol, true, tiny, invSqrt);
      case Transpose =>
        r := new real[|x|](_ => 0.0);
        TransposeInto(r, x, n, p);
        QrImpl2(q, r, n, p, tol, true, tiny, invSqrt);
    }
    ghost var swept := Swept(impl, x, n, p, tol, tiny, invSqrt);
    assert q[..] == swept.q && r[..] == swept.r;
    TransposeSquare(q, n);
    Compact(r, n, p);
    MulLess(p, n, n);
    assert n * p == p * n;
    res := QR(q[..n * p], r[..p * p]);
  }

  /**
   * qr_decomposition with both branches corrected to the layout
   * validate_qr reads: the baseline branch as QrDecompositionUnshadowed;
   * the transpose branch keeps Q as it is and transposes the leading
   * p-by-p block of R in place instead of compacting it.
   */
  method QrDecompositionCorrected(x: seq<real>, n: nat, p: nat, tol: real, impl: Variant, tiny: real, invSqrt: real -> real) returns (res: QR)
    requires 0 < p <= n && |x| == n * p && 0.0 < tiny
    ensures res == DecompositionCorrected(impl, x, n, p, tol, tiny, invSqrt)
  {
    match impl {
      case Baseline =>
        res := QrDecompositionUnshadowed(x, n, p, tol, impl, tiny, invSqrt);
      case Transpose =>
        var q := MakeIdentity(n);
        var r := new real[|x|](_ => 0.0);
        TransposeInto(r, x, n, p);
        QrImpl2(q, r, n, p, tol, true, tiny, invSqrt);
        ghost var swept := Swept(impl, x, n, p, tol, tiny, invSqrt);
        assert q[..] == swept.q && r[..] == swept.r;
        MulLess(p, n, p);
        TransposeSquare(r, p);
        MulLess(p, n, n);
        assert n * p == p * n;
        res := QR(q[..n * p], r[..p * p]);
    }
  }
}
