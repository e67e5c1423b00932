/**
 * The value the facade qr_decomposition of tinyqr.h returns, as written
 * and with the baseline branch corrected, and what each returns.
 */
module Facade {
  import opened MatrixIndex
  import opened Layout
  import opened Givens
  import opened Matrices
  import opened Elimination

  /** The default tolerance of qr_decomposition, 1e-8. */
  const DefaultTol: real := 0.00000001

  /**
   * The pair the sweep starts from: the identity as Q and, as R, the
   * input itself (baseline, column-major with stride n) or its
   * transpose-copy (transpose variant, row-major with stride p).
   */
  function Start(v: Variant, x: seq<real>, n: nat, p: nat): (st: QR)
    requires 0 < p && |x| == n * p
    ensures Shaped(n, p, st)
  {
    QR(Identity(n), if v == Baseline then x else TransposeCopy(x, n, p))
  }

  /** The sweep of the facade, always with cleanup. */
  function Swept(v: Variant, x: seq<real>, n: nat, p: nat, tol: real, tiny: real, invSqrt: real -> real): (st: QR)
    requires 0 < p && |x| == n * p && 0.0 <= tiny
    ensures Shaped(n, p, st)
  {
    SweepAndClean(v, n, p, tol, true, tiny, invSqrt, Start(v, x, n, p))
  }

  /**
   * What qr_decomposition as written (tinyqr.h:218-231) makes of the
   * swept pair: Q is the swept Q transposed and cut to its first n * p
   * cells; R is the compaction of the outer buffer R. In the baseline
   * branch the sweep ran on a second, local R (tinyqr.h:208), so the outer
   * buffer still holds the zeros it was created with.
   */
  function Assemble(v: Variant, swept: QR, n: nat, p: nat): (res: QR)
    requires 0 < p <= n && Shaped(n, p, swept)
    ensures |res.q| == n * p && |res.r| == p * p
  {
    var outer := if v == Baseline then Zeros(n * p) else swept.r;
    MulLess(p, n, n);
    assert n * p == p * n;
    QR(Transposed(swept.q, n)[..n * p], Compacted(outer, n, p))
  }

  /** The result of qr_decomposition as written (tinyqr.h:200-231). */
  function Decomposition(v: Variant, x: seq<real>, n: nat, p: nat, tol: real, tiny: real, invSqrt: real -> real): (res: QR)
    requires 0 < p <= n && |x| == n * p && 0.0 <= tiny
    ensures |res.q| == n * p && |res.r| == p * p
  {
    Assemble(v, Swept(v, x, n, p, tol, tiny, invSqrt), n, p)
  }

  /**
   * The returned Q holds, at a * n + b, cell b * n + a of the swept Q.
   * In the baseline layout that is position b of line a, so the result
   * holds the first p lines of the accumulator, one after the other; in
   * the transpose layout it is position a of line b.
   */
  lemma AssembledQ(v: Variant, swept: QR, n: nat, p: nat, a: nat, b: nat)
    requires 0 < p <= n && Shaped(n, p, swept) && a < p && b < n
    ensures a * n + b < n * p && b * n + a < n * n
    ensures Assemble(v, swept, n, p).q[a * n + b] == swept.q[b * n + a]
    ensures v == Baseline ==> Assemble(v, swept, n, p).q[a * n + b] == swept.q[QIndex(Baseline, n, a, b)]
    ensures v == Transpose ==> Assemble(v, swept, n, p).q[a * n + b] == swept.q[QIndex(Transpose, n, b, a)]
  {
    FlatBelow(a, b, n, p);
    assert p * n == n * p;
    TransposedAt(swept.q, n, a, b);
  }

  /** As written, the baseline facade returns an R of p * p zeros, whatever the sweep computed. */
  lemma BaselineReturnsZeroR(swept: QR, n: nat, p: nat)
    requires 0 < p <= n && Shaped(n, p, swept)
    ensures Assemble(Baseline, swept, n, p).r == Zeros(p * p)
  {
    CompactedZeros(n, p);
  }

  /**
   * In the transpose variant the compaction reads the row-major swept R
   * (stride p) with stride n: output cell i * p + j is swept cell
   * i * n + j, which is the slot of R(i, j) only when n == p or i == 0
   * (CompactedStride).
   */
  lemma TransposeCompactionStride(swept: QR, n: nat, p: nat, i: nat, j: nat)
    requires 0 < p <= n && Shaped(n, p, swept) && i < p && j < p
    ensures i * p + j < p * p && i * n + j < n * p
    ensures Assemble(Transpose, swept, n, p).r[i * p + j] == swept.r[i * n + j]
    ensures n == p || i == 0 ==> Assemble(Transpose, swept, n, p).r[i * p + j] == swept.r[RIndex(Transpose, n, p, i, j)]
  {
    CompactedAt(swept.r, n, p, i, j);
    CompactedStride(n, p, i, j);
  }

  /** Compacting a buffer of zeros gives zeros. */
  lemma CompactedZeros(n: nat, p: nat)
    requires 0 < p <= n
    ensures Compacted(Zeros(n * p), n, p) == Zeros(p * p)
  {
    var z := Compacted(Zeros(n * p), n, p);
    forall k | 0 <= k < p * p
      ensures z[k] == 0.0
    {
      FlatSplit(k, p, p);
      CompactedAt(Zeros(n * p), n, p, k / p, k % p);
    }
  }

  /**
   * The compaction reads cell i * n + j for output (i, j); in the row-major
   * layout of the transpose variant that is the slot of entry (i, j)
   * exactly when the matrix is square or i is the first row.
   */
  lemma CompactedStride(n: nat, p: nat, i: nat, j: nat)
    requires 0 < p <= n && i < p && j < p
    ensures i * n + j < n * p
    ensures i * n + j == RIndex(Transpose, n, p, i, j) <==> n == p || i == 0
  {
    CompactReadInBounds(n, p, i, j);
    if n != p && i != 0 {
      MulLess(1, n - p, i);
      assert i * n - i * p == (n - p) * i;
    }
  }

  /**
   * The assembly with the baseline branch corrected: the baseline sweep
   * works on the outer R, so the compaction sees the swept R. The
   * transpose variant is unchanged.
   */
  function AssembleUnshadowed(swept: QR, n: nat, p: nat): (res: QR)
    requires 0 < p <= n && Shaped(n, p, swept)
    ensures |res.q| == n * p && |res.r| == p * p
    ensures forall v :: res.q == Assemble(v, swept, n, p).q
    ensures res == Assemble(Transpose, swept, n, p)
  {
    MulLess(p, n, n);
    assert n * p == p * n;
    QR(Transposed(swept.q, n)[..n * p], Compacted(swept.r, n, p))
  }

  /** qr_decomposition with the baseline branch corrected. */
  function DecompositionUnshadowed(v: Variant, x: seq<real>, n: nat, p: nat, tol: real, tiny: real, invSqrt: real -> real): (res: QR)
    requires 0 < p <= n && |x| == n * p && 0.0 <= tiny
    ensures |res.q| == n * p && |res.r| == p * p
    ensures res.q == Decomposition(v, x, n, p, tol, tiny, invSqrt).q
    ensures v == Transpose ==> res == Decomposition(v, x, n, p, tol, tiny, invSqrt)
  {
    AssembleUnshadowed(Swept(v, x, n, p, tol, tiny, invSqrt), n, p)
  }

  /**
   * Corrected, the baseline facade returns the leading p-by-p block of
   * the swept and cleaned R, column by column: cell i * p + j holds
   * R(j, i).
   */
  lemma UnshadowedBaselineR(swept: QR, n: nat, p: nat, i: nat, j: nat)
    requires 0 < p <= n && Shaped(n, p, swept) && i < p && j < p
    ensures i * p + j < p * p
    ensures AssembleUnshadowed(swept, n, p).r[i * p + j] == swept.r[RIndex(Baseline, n, p, j, i)]
  {
    CompactedAt(swept.r, n, p, i, j);
  }

  /**
   * The 1-by-1 input [2.0]: a single entry, no step to take, nothing to
   * clean. As written the baseline facade returns R = [0.0]; corrected,
   * it returns the input, R = [2.0].
   */
  lemma ShadowingLosesR(tiny: real, invSqrt: real -> real)
    requires 0.0 <= tiny
    ensures Decomposition(Baseline, [2.0], 1, 1, DefaultTol, tiny, invSqrt).r == [0.0]
    ensures DecompositionUnshadowed(Baseline, [2.0], 1, 1, DefaultTol, tiny, invSqrt).r == [2.0]
  {
    var x := [2.0];
    assert Schedule(1, 1) == [];
    assert Sweep(Baseline, 1, 1, tiny, invSqrt, Start(Baseline, x, 1, 1)) == Start(Baseline, x, 1, 1);
    var swept := Swept(Baseline, x, 1, 1, DefaultTol, tiny, invSqrt);
    assert swept.r == Thresholded(x, DefaultTol);
    assert swept.r[0] == 2.0;
    UnshadowedBaselineR(swept, 1, 1, 0, 0);
    BaselineReturnsZeroR(swept, 1, 1);
  }

  /** The baseline input X and its transpose-copy hold the same matrix, and both start from the identity. */
  lemma StartSameEntries(x: seq<real>, n: nat, p: nat)
    requires 0 < p && |x| == n * p
    ensures SameEntries(n, p, Start(Baseline, x, n, p), Start(Transpose, x, n, p))
  {
    var b, t := Start(Baseline, x, n, p), Start(Transpose, x, n, p);
    forall row: nat, col: nat | row < n && col < p
      ensures b.r[RIndex(Baseline, n, p, row, col)] == t.r[RIndex(Transpose, n, p, row, col)]
    {
      TransposeCopyAt(x, n, p, row, col);
    }
    forall line: nat, pos: nat | line < n && pos < n
      ensures b.q[QIndex(Baseline, n, line, pos)] == t.q[QIndex(Transpose, n, line, pos)]
    {
      IdentityAt(n, pos, line);
      IdentityAt(n, line, pos);
    }
  }

  /** The two sweeps of the facade end on the same matrices, each in its own layout. */
  lemma SweptSameEntries(x: seq<real>, n: nat, p: nat, tol: real, tiny: real, invSqrt: real -> real)
    requires 0 < p && |x| == n * p && 0.0 <= tiny
    ensures SameEntries(n, p, Swept(Baseline, x, n, p, tol, tiny, invSqrt), Swept(Transpose, x, n, p, tol, tiny, invSqrt))
  {
    StartSameEntries(x, n, p);
    SweepSameEntries(n, p, tol, true, tiny, invSqrt, Start(Baseline, x, n, p), Start(Transpose, x, n, p));
  }

  /**
   * The assembly with both the baseline and the transpose branch
   * corrected to the layout validate_qr reads (Q(i, k) at k * n + i,
   * R(k, j) at j * p + k). Baseline: as AssembleUnshadowed. Transpose:
   * the lines of Q are already stored one after the other, so Q is cut
   * without transposing; R is stored row by row with stride p, so its
   * leading p-by-p block is transposed instead of compacted.
   */
  function AssembleCorrected(v: Variant, swept: QR, n: nat, p: nat): (res: QR)
    requires 0 < p <= n && Shaped(n, p, swept)
    ensures |res.q| == n * p && |res.r| == p * p
    ensures v == Baseline ==> res == AssembleUnshadowed(swept, n, p)
  {
    MulLess(p, n, n);
    MulLess(p, n, p);
    assert n * p == p * n;
    match v
    case Baseline => AssembleUnshadowed(swept, n, p)
    case Transpose => QR(swept.q[..n * p], Transposed(swept.r, p)[..p * p])
  }

  /** qr_decomposition with both branches corrected. */
  function DecompositionCorrected(v: Variant, x: seq<real>, n: nat, p: nat, tol: real, tiny: real, invSqrt: real -> real): (res: QR)
    requires 0 < p <= n && |x| == n * p && 0.0 <= tiny
    ensures |res.q| == n * p && |res.r| == p * p
    ensures v == Baseline ==> res == DecompositionUnshadowed(v, x, n, p, tol, tiny, invSqrt)
  {
    AssembleCorrected(v, Swept(v, x, n, p, tol, tiny, invSqrt), n, p)
  }

  /** The corrected transpose Q equals the corrected baseline Q, cell by cell. */
  lemma CorrectedQAgrees(sb: QR, st: QR, n: nat, p: nat)
    requires 0 < p <= n && Shaped(n, p, sb) && Shaped(n, p, st) && SameEntries(n, p, sb, st)
    ensures AssembleCorrected(Transpose, st, n, p).q == AssembleUnshadowed(sb, n, p).q
  {
    var cb, ct := AssembleUnshadowed(sb, n, p), AssembleCorrected(Transpose, st, n, p);
    forall m | 0 <= m < n * p
      ensures ct.q[m] == cb.q[m]
    {
      FlatSplit(m, n, p);
      var a, b := m / n, m % n;
      AssembledQ(Baseline, sb, n, p, a, b);
      assert sb.q[QIndex(Baseline, n, a, b)] == st.q[QIndex(Transpose, n, a, b)];
    }
  }

  /** The corrected transpose R equals the corrected baseline R, cell by cell. */
  lemma CorrectedRAgrees(sb: QR, st: QR, n: nat, p: nat)
    requires 0 < p <= n && Shaped(n, p, sb) && Shaped(n, p, st) && SameEntries(n, p, sb, st)
    ensures AssembleCorrected(Transpose, st, n, p).r == AssembleUnshadowed(sb, n, p).r
  {
    var cb, ct := AssembleUnshadowed(sb, n, p), AssembleCorrected(Transpose, st, n, p);
    MulLess(p, n, p);
    forall m | 0 <= m < p * p
      ensures ct.r[m] == cb.r[m]
    {
      FlatSplit(m, p, p);
      var i, j := m / p, m % p;
      UnshadowedBaselineR(sb, n, p, i, j);
      TransposedAt(st.r, p, i, j);
      assert sb.r[RIndex(Baseline, n, p, j, i)] == st.r[RIndex(Transpose, n, p, j, i)];
    }
  }

  /**
   * Corrected, the two implementations return the same decomposition for
   * every input: the transpose variant equals the corrected baseline.
   */
  lemma CorrectedVariantsAgree(x: seq<real>, n: nat, p: nat, tol: real, tiny: real, invSqrt: real -> real)
    requires 0 < p <= n && |x| == n * p && 0.0 <= tiny
    ensures DecompositionCorrected(Transpose, x, n, p, tol, tiny, invSqrt) == DecompositionUnshadowed(Baseline, x, n, p, tol, tiny, invSqrt)
  {
    var sb, st := Swept(Baseline, x, n, p, tol, tiny, invSqrt), Swept(Transpose, x, n, p, tol, tiny, invSqrt);
    SweptSameEntries(x, n, p, tol, tiny, invSqrt);
    CorrectedQAgrees(sb, st, n, p);
    CorrectedRAgrees(sb, st, n, p);
  }

  /** The 2-by-1 input [1, 1] starts from the identity and, in both layouts, the same R. */
  lemma TwoByOneStart(v: Variant, x: seq<real>)
    requires x == [1.0, 1.0]
    ensures Start(v, x, 2, 1) == QR([1.0, 0.0, 0.0, 1.0], x)
  {
    IdentityAt(2, 0, 0);
    IdentityAt(2, 0, 1);
    IdentityAt(2, 1, 0);
    IdentityAt(2, 1, 1);
    if v == Transpose {
      TransposeCopyAt(x, 2, 1, 0, 0);
      TransposeCopyAt(x, 2, 1, 1, 0);
    }
  }

  /** The sweep of a 2-by-1 matrix is its single step (1, 0). */
  lemma TwoByOneSwept(v: Variant, x: seq<real>, tiny: real, invSqrt: real -> real)
    requires |x| == 2 && 0.0 <= tiny
    ensures Swept(v, x, 2, 1, DefaultTol, tiny, invSqrt).q == Step(v, 2, 1, tiny, invSqrt, Start(v, x, 2, 1), Site(1, 0)).q
  {
    assert Pass(2, 0, 1) == [];
    assert Schedule(2, 1) == [Site(1, 0)];
    var st := Start(v, x, 2, 1);
    assert ApplyAll(v, 2, 1, tiny, invSqrt, st, [Site(1, 0)]) == Step(v, 2, 1, tiny, invSqrt, st, Site(1, 0));
  }

  /** The rotation of the pair (1, 1) is c = s = invSqrt(2), which is not 0. */
  lemma RotationOfOnes(invSqrt: real -> real)
    requires ExactInvSqrt(invSqrt)
    ensures GivensRotation(1.0, 1.0, invSqrt) == (invSqrt(2.0), invSqrt(2.0))
    ensures invSqrt(2.0) != 0.0
  {
    InvSqrtOfRatio(invSqrt, 1.0);
    GivensByUpper(1.0, 1.0, invSqrt);
  }

  /**
   * The step (1, 0) on [1, 1] from the identity: cell 0 of Q becomes t
   * in both layouts; cell 2 is position 1 of line 0 in the baseline
   * layout and becomes t, but position 0 of line 1 in the transpose
   * layout and becomes -t.
   */
  lemma TwoByOneStepQ(v: Variant, x: seq<real>, tiny: real, invSqrt: real -> real)
    requires x == [1.0, 1.0] && 0.0 <= tiny < 1.0 && ExactInvSqrt(invSqrt)
    ensures var q' := Step(v, 2, 1, tiny, invSqrt, QR([1.0, 0.0, 0.0, 1.0], x), Site(1, 0)).q;
      q'[0] == invSqrt(2.0) && q'[2] == (if v == Baseline then invSqrt(2.0) else -invSqrt(2.0))
  {
    var st, site := QR([1.0, 0.0, 0.0, 1.0], x), Site(1, 0);
    RotationOfOnes(invSqrt);
    assert !Skipped(v, 2, 1, tiny, st, site);
    assert StepRotation(v, 2, 1, tiny, invSqrt, st, site) == (invSqrt(2.0), invSqrt(2.0));
    StepQ(v, 2, 1, tiny, invSqrt, st, site, 0, 0);
    if v == Baseline {
      StepQ(v, 2, 1, tiny, invSqrt, st, site, 0, 1);
    } else {
      StepQ(v, 2, 1, tiny, invSqrt, st, site, 1, 0);
    }
  }

  /**
   * The 2-by-1 input X = [1, 1]: the single step rotates by c = s = t,
   * t = invSqrt(2). The baseline facade returns Q = [t, t], the
   * transpose facade Q = [t, -t], so the two variants disagree (and
   * Q(1, 0) * R(0, 0) is -1 for the transpose result, not X(1, 0) = 1).
   * Corrected, the transpose facade returns Q = [t, t].
   */
  lemma TransposeQDiffers(x: seq<real>, tiny: real, invSqrt: real -> real)
    requires x == [1.0, 1.0] && 0.0 <= tiny < 1.0 && ExactInvSqrt(invSqrt)
    ensures var t := invSqrt(2.0);
      && t != -t
      && Decomposition(Baseline, x, 2, 1, DefaultTol, tiny, invSqrt).q == [t, t]
      && Decomposition(Transpose, x, 2, 1, DefaultTol, tiny, invSqrt).q == [t, -t]
      && DecompositionCorrected(Transpose, x, 2, 1, DefaultTol, tiny, invSqrt).q == [t, t]
  {
    RotationOfOnes(invSqrt);
    var sb, st := Swept(Baseline, x, 2, 1, DefaultTol, tiny, invSqrt), Swept(Transpose, x, 2, 1, DefaultTol, tiny, invSqrt);
    TwoByOneStart(Baseline, x);
    TwoByOneStart(Transpose, x);
    TwoByOneSwept(Baseline, x, tiny, invSqrt);
    TwoByOneSwept(Transpose, x, tiny, invSqrt);
    TwoByOneStepQ(Baseline, x, tiny, invSqrt);
    TwoByOneStepQ(Transpose, x, tiny, invSqrt);
    AssembledQ(Baseline, sb, 2, 1, 0, 0);
    AssembledQ(Baseline, sb, 2, 1, 0, 1);
    AssembledQ(Transpose, st, 2, 1, 0, 0);
    AssembledQ(Transpose, st, 2, 1, 0, 1);
    CorrectedVariantsAgree(x, 2, 1, DefaultTol, tiny, invSqrt);
  }

  /**
   * With an exact zero test, the corrected facade returns an
   * upper-triangular R in either variant: in the layout validate_qr
   * reads, R(k, j) at j * p + k is zero for every k below the diagonal.
   */
  lemma CorrectedUpperTriangular(v: Variant, x: seq<real>, n: nat, p: nat, tol: real, tiny: real, invSqrt: real -> real, j: nat, k: nat)
    requires 0 < p <= n && |x| == n * p && tiny == 0.0 && j < k < p
    ensures j * p + k < p * p
    ensures DecompositionCorrected(v, x, n, p, tol, tiny, invSqrt).r[j * p + k] == 0.0
  {
    var st0 := Start(Baseline, x, n, p);
    var sb := Swept(Baseline, x, n, p, tol, tiny, invSqrt);
    var swept := Sweep(Baseline, n, p, tiny, invSqrt, st0);
    assert sb.r == Thresholded(swept.r, tol);
    SweepUpperTriangular(Baseline, n, p, tiny, invSqrt, st0);
    assert swept.r[RIndex(Baseline, n, p, k, j)] == 0.0;
    UnshadowedBaselineR(sb, n, p, j, k);
    CorrectedVariantsAgree(x, n, p, tol, tiny, invSqrt);
  }
}
