/**
 * Value-level meaning of the elimination sweeps qr_impl and qr_impl2 of
 * tinyqr.h: one step rotates two rows of R and two lines of Q, and the
 * sweep applies the steps of a fixed schedule (column j ascending, row i
 * from n-1 down to j+1) to the pair (Q, R).
 */
module Elimination {
  import opened MatrixIndex
  import opened Layout
  import opened Givens
  import opened Matrices

  /** The pair of buffers the facade returns (struct QR of tinyqr.h). */
  datatype QR = QR(q: seq<real>, r: seq<real>)

  /** Q is n-by-n and R is n-by-p. */
  predicate Shaped(n: nat, p: nat, st: QR)
  {
    |st.q| == n * n && |st.r| == n * p
  }

  /** The step that eliminates the entry at row `row`, column `col` of R. */
  datatype Site = Site(row: nat, col: nat)

  /** A step the sweep can take: below the diagonal, inside an n-by-p R. */
  predicate ValidSite(n: nat, p: nat, x: Site)
  {
    x.col < p && x.col < x.row < n
  }

  /**
   * R after the k loop of one step has visited columns 0..k-1: each visit
   * reads the two entries of column k-1 in rows i-1 and i and writes
   * c*t1 + s*t2 to row i-1, then -s*t1 + c*t2 to row i.
   */
  function RotateRowsUpTo(v: Variant, n: nat, p: nat, r: seq<real>, i: nat, c: real, s: real, k: nat): (r': seq<real>)
    requires 0 < i < n && k <= p && |r| == n * p
    ensures |r'| == |r|
    decreases k
  {
    if k == 0 then r
    else
      var prev := RotateRowsUpTo(v, n, p, r, i, c, s, k - 1);
      var upper := RIndex(v, n, p, i - 1, k - 1);
      var lower := RIndex(v, n, p, i, k - 1);
      var t1, t2 := prev[upper], prev[lower];
      prev[upper := Blend(c, t1, s, t2)][lower := Blend(-s, t1, c, t2)]
  }

  /** Visiting column k extends the rotation of columns 0..k-1 by that column. */
  lemma RotateRowsNext(v: Variant, n: nat, p: nat, r: seq<real>, i: nat, c: real, s: real, k: nat, upper: nat, lower: nat)
    requires 0 < i < n && k < p && |r| == n * p
    requires upper == RIndex(v, n, p, i - 1, k) && lower == RIndex(v, n, p, i, k)
    ensures var prev := RotateRowsUpTo(v, n, p, r, i, c, s, k);
      RotateRowsUpTo(v, n, p, r, i, c, s, k + 1) ==
        prev[upper := Blend(c, prev[upper], s, prev[lower])][lower := Blend(-s, prev[upper], c, prev[lower])]
  {
  }

  /** One visit of the k loop leaves every entry outside column k-1 of rows i-1 and i alone. */
  lemma RotateRowsVisitOther(v: Variant, n: nat, p: nat, r: seq<real>, i: nat, c: real, s: real, k: nat, row: nat, col: nat)
    requires 0 < i < n && 0 < k <= p && |r| == n * p && row < n && col < p
    requires !(col == k - 1 && (row == i - 1 || row == i))
    ensures RotateRowsUpTo(v, n, p, r, i, c, s, k)[RIndex(v, n, p, row, col)] ==
      RotateRowsUpTo(v, n, p, r, i, c, s, k - 1)[RIndex(v, n, p, row, col)]
  {
    RIndexInjective(v, n, p, row, col, i - 1, k - 1);
    RIndexInjective(v, n, p, row, col, i, k - 1);
  }

  /** One visit of the k loop rotates column k-1 of rows i-1 and i. */
  lemma RotateRowsVisitPair(v: Variant, n: nat, p: nat, r: seq<real>, i: nat, c: real, s: real, k: nat)
    requires 0 < i < n && 0 < k <= p && |r| == n * p
    ensures var prev := RotateRowsUpTo(v, n, p, r, i, c, s, k - 1);
      var t1, t2 := prev[RIndex(v, n, p, i - 1, k - 1)], prev[RIndex(v, n, p, i, k - 1)];
      var r' := RotateRowsUpTo(v, n, p, r, i, c, s, k);
      r'[RIndex(v, n, p, i - 1, k - 1)] == Blend(c, t1, s, t2) && r'[RIndex(v, n, p, i, k - 1)] == Blend(-s, t1, c, t2)
  {
    RIndexInjective(v, n, p, i - 1, k - 1, i, k - 1);
  }

  /** Entries outside rows i-1 and i of the visited columns keep their values. */
  lemma {:induction false} RotateRowsUntouched(v: Variant, n: nat, p: nat, r: seq<real>, i: nat, c: real, s: real, k: nat, row: nat, col: nat)
    requires 0 < i < n && k <= p && |r| == n * p && row < n && col < p
    requires !(col < k && (row == i - 1 || row == i))
    ensures RotateRowsUpTo(v, n, p, r, i, c, s, k)[RIndex(v, n, p, row, col)] == r[RIndex(v, n, p, row, col)]
    decreases k
  {
    if k > 0 {
      RotateRowsVisitOther(v, n, p, r, i, c, s, k, row, col);
      RotateRowsUntouched(v, n, p, r, i, c, s, k - 1, row, col);
    }
  }

  /** In a visited column, rows i-1 and i hold the rotated pair of their original entries. */
  lemma {:induction false} RotateRowsPair(v: Variant, n: nat, p: nat, r: seq<real>, i: nat, c: real, s: real, k: nat, col: nat)
    requires 0 < i < n && col < k <= p && |r| == n * p
    ensures var t1, t2 := r[RIndex(v, n, p, i - 1, col)], r[RIndex(v, n, p, i, col)];
      var r' := RotateRowsUpTo(v, n, p, r, i, c, s, k);
      r'[RIndex(v, n, p, i - 1, col)] == Blend(c, t1, s, t2) && r'[RIndex(v, n, p, i, col)] == Blend(-s, t1, c, t2)
    decreases k
  {
    if col == k - 1 {
      RotateRowsPairLast(v, n, p, r, i, c, s, k);
    } else {
      RotateRowsVisitOther(v, n, p, r, i, c, s, k, i - 1, col);
      RotateRowsVisitOther(v, n, p, r, i, c, s, k, i, col);
      RotateRowsPair(v, n, p, r, i, c, s, k - 1, col);
    }
  }

  /** The column visited last holds the rotated pair of its original entries. */
  lemma RotateRowsPairLast(v: Variant, n: nat, p: nat, r: seq<real>, i: nat, c: real, s: real, k: nat)
    requires 0 < i < n && 0 < k <= p && |r| == n * p
    ensures var t1, t2 := r[RIndex(v, n, p, i - 1, k - 1)], r[RIndex(v, n, p, i, k - 1)];
      var r' := RotateRowsUpTo(v, n, p, r, i, c, s, k);
      r'[RIndex(v, n, p, i - 1, k - 1)] == Blend(c, t1, s, t2) && r'[RIndex(v, n, p, i, k - 1)] == Blend(-s, t1, c, t2)
  {
    var prev := RotateRowsUpTo(v, n, p, r, i, c, s, k - 1);
    var upper, lower := RIndex(v, n, p, i - 1, k - 1), RIndex(v, n, p, i, k - 1);
    RotateRowsVisitPair(v, n, p, r, i, c, s, k);
    RotateRowsUntouched(v, n, p, r, i, c, s, k - 1, i - 1, k - 1);
    RotateRowsUntouched(v, n, p, r, i, c, s, k - 1, i, k - 1);
    assert prev[upper] == r[upper] && prev[lower] == r[lower];
  }

  /**
   * Entry (row, col) of R after the first k columns were rotated: rows i-1
   * and i of those columns hold the rotated pair of the original entries,
   * every other entry is the original one.
   */
  lemma RotateRowsUpToAt(v: Variant, n: nat, p: nat, r: seq<real>, i: nat, c: real, s: real, k: nat, row: nat, col: nat)
    requires 0 < i < n && k <= p && |r| == n * p && row < n && col < p
    ensures var r' := RotateRowsUpTo(v, n, p, r, i, c, s, k);
      var t1, t2 := r[RIndex(v, n, p, i - 1, col)], r[RIndex(v, n, p, i, col)];
      r'[RIndex(v, n, p, row, col)] ==
        if col < k && row == i - 1 then Blend(c, t1, s, t2)
        else if col < k && row == i then Blend(-s, t1, c, t2)
        else r[RIndex(v, n, p, row, col)]
  {
    if col < k && (row == i - 1 || row == i) {
      RotateRowsPair(v, n, p, r, i, c, s, k, col);
    } else {
      RotateRowsUntouched(v, n, p, r, i, c, s, k, row, col);
    }
  }

  /**
   * Q after the k loop of one step has visited positions 0..k-1: each visit
   * reads t1 from line i and t2 from line i-1 and writes c*t1 - s*t2 to
   * line i, then s*t1 + c*t2 to line i-1.
   */
  function RotateLinesUpTo(v: Variant, n: nat, q: seq<real>, i: nat, c: real, s: real, k: nat): (q': seq<real>)
    requires 0 < i < n && k <= n && |q| == n * n
    ensures |q'| == |q|
    decreases k
  {
    if k == 0 then q
    else
      var prev := RotateLinesUpTo(v, n, q, i, c, s, k - 1);
      var upper := QIndex(v, n, i, k - 1);
      var lower := QIndex(v, n, i - 1, k - 1);
      var t1, t2 := prev[upper], prev[lower];
      prev[upper := Blend(c, t1, -s, t2)][lower := Blend(s, t1, c, t2)]
  }

  /** Visiting position k extends the rotation of positions 0..k-1 by that position. */
  lemma RotateLinesNext(v: Variant, n: nat, q: seq<real>, i: nat, c: real, s: real, k: nat, upper: nat, lower: nat)
    requires 0 < i < n && k < n && |q| == n * n
    requires upper == QIndex(v, n, i, k) && lower == QIndex(v, n, i - 1, k)
    ensures var prev := RotateLinesUpTo(v, n, q, i, c, s, k);
      RotateLinesUpTo(v, n, q, i, c, s, k + 1) ==
        prev[upper := Blend(c, prev[upper], -s, prev[lower])][lower := Blend(s, prev[upper], c, prev[lower])]
  {
  }

  /** One visit of the k loop leaves every entry outside position k-1 of lines i and i-1 alone. */
  lemma RotateLinesVisitOther(v: Variant, n: nat, q: seq<real>, i: nat, c: real, s: real, k: nat, line: nat, pos: nat)
    requires 0 < i < n && 0 < k <= n && |q| == n * n && line < n && pos < n
    requires !(pos == k - 1 && (line == i || line == i - 1))
    ensures RotateLinesUpTo(v, n, q, i, c, s, k)[QIndex(v, n, line, pos)] ==
      RotateLinesUpTo(v, n, q, i, c, s, k - 1)[QIndex(v, n, line, pos)]
  {
    QIndexInjective(v, n, line, pos, i, k - 1);
    QIndexInjective(v, n, line, pos, i - 1, k - 1);
  }

  /** One visit of the k loop rotates position k-1 of lines i and i-1. */
  lemma RotateLinesVisitPair(v: Variant, n: nat, q: seq<real>, i: nat, c: real, s: real, k: nat)
    requires 0 < i < n && 0 < k <= n && |q| == n * n
    ensures var prev := RotateLinesUpTo(v, n, q, i, c, s, k - 1);
      var t1, t2 := prev[QIndex(v, n, i, k - 1)], prev[QIndex(v, n, i - 1, k - 1)];
      var q' := RotateLinesUpTo(v, n, q, i, c, s, k);
      q'[QIndex(v, n, i, k - 1)] == Blend(c, t1, -s, t2) && q'[QIndex(v, n, i - 1, k - 1)] == Blend(s, t1, c, t2)
  {
    QIndexInjective(v, n, i, k - 1, i - 1, k - 1);
  }

  /** Entries outside lines i and i-1 of the visited positions keep their values. */
  lemma {:induction false} RotateLinesUntouched(v: Variant, n: nat, q: seq<real>, i: nat, c: real, s: real, k: nat, line: nat, pos: nat)
    requires 0 < i < n && k <= n && |q| == n * n && line < n && pos < n
    requires !(pos < k && (line == i || line == i - 1))
    ensures RotateLinesUpTo(v, n, q, i, c, s, k)[QIndex(v, n, line, pos)] == q[QIndex(v, n, line, pos)]
    decreases k
  {
    if k > 0 {
      RotateLinesVisitOther(v, n, q, i, c, s, k, line, pos);
      RotateLinesUntouched(v, n, q, i, c, s, k - 1, line, pos);
    }
  }

  /** At a visited position, lines i and i-1 hold the rotated pair of their original entries. */
  lemma {:induction false} RotateLinesPair(v: Variant, n: nat, q: seq<real>, i: nat, c: real, s: real, k: nat, pos: nat)
    requires 0 < i < n && pos < k <= n && |q| == n * n
    ensures var t1, t2 := q[QIndex(v, n, i, pos)], q[QIndex(v, n, i - 1, pos)];
      var q' := RotateLinesUpTo(v, n, q, i, c, s, k);
      q'[QIndex(v, n, i, pos)] == Blend(c, t1, -s, t2) && q'[QIndex(v, n, i - 1, pos)] == Blend(s, t1, c, t2)
    decreases k
  {
    if pos == k - 1 {
      RotateLinesPairLast(v, n, q, i, c, s, k);
    } else {
      RotateLinesVisitOther(v, n, q, i, c, s, k, i, pos);
      RotateLinesVisitOther(v, n, q, i, c, s, k, i - 1, pos);
      RotateLinesPair(v, n, q, i, c, s, k - 1, pos);
    }
  }

  /** The position visited last holds the rotated pair of its original entries. */
  lemma RotateLinesPairLast(v: Variant, n: nat, q: seq<real>, i: nat, c: real, s: real, k: nat)
    requires 0 < i < n && 0 < k <= n && |q| == n * n
    ensures var t1, t2 := q[QIndex(v, n, i, k - 1)], q[QIndex(v, n, i - 1, k - 1)];
      var q' := RotateLinesUpTo(v, n, q, i, c, s, k);
      q'[QIndex(v, n, i, k - 1)] == Blend(c, t1, -s, t2) && q'[QIndex(v, n, i - 1, k - 1)] == Blend(s, t1, c, t2)
  {
    RotateLinesVisitPair(v, n, q, i, c, s, k);
    RotateLinesUntouched(v, n, q, i, c, s, k - 1, i, k - 1);
    RotateLinesUntouched(v, n, q, i, c, s, k - 1, i - 1, k - 1);
  }

  /** Q counterpart of RotateRowsUpToAt: only lines i and i-1 change. */
  lemma RotateLinesUpToAt(v: Variant, n: nat, q: seq<real>, i: nat, c: real, s: real, k: nat, line: nat, pos: nat)
    requires 0 < i < n && k <= n && |q| == n * n && line < n && pos < n
    ensures var q' := RotateLinesUpTo(v, n, q, i, c, s, k);
      var t1, t2 := q[QIndex(v, n, i, pos)], q[QIndex(v, n, i - 1, pos)];
      q'[QIndex(v, n, line, pos)] ==
        if pos < k && line == i then Blend(c, t1, -s, t2)
        else if pos < k && line == i - 1 then Blend(s, t1, c, t2)
        else q[QIndex(v, n, line, pos)]
  {
    if pos < k && (line == i || line == i - 1) {
      RotateLinesPair(v, n, q, i, c, s, k, pos);
    } else {
      RotateLinesUntouched(v, n, q, i, c, s, k, line, pos);
    }
  }

  /** Whether step x is skipped: |R(i, j)| is at most the smallest positive scalar. */
  predicate Skipped(v: Variant, n: nat, p: nat, tiny: real, st: QR, x: Site)
    requires Shaped(n, p, st) && ValidSite(n, p, x)
  {
    Abs(st.r[RIndex(v, n, p, x.row, x.col)]) <= tiny
  }

  /** The rotation pair of step x, from the entries at rows i-1 and i of column j. */
  function StepRotation(v: Variant, n: nat, p: nat, tiny: real, invSqrt: real -> real, st: QR, x: Site): (cs: (real, real))
    requires 0.0 <= tiny && Shaped(n, p, st) && ValidSite(n, p, x)
    requires !Skipped(v, n, p, tiny, st, x)
  {
    GivensRotation(st.r[RIndex(v, n, p, x.row - 1, x.col)], st.r[RIndex(v, n, p, x.row, x.col)], invSqrt)
  }

  /**
   * One iteration of the i loop: skipped, or R's rows i-1, i and Q's lines
   * i-1, i rotated across all p columns and all n positions. The shapes
   * are kept, and a skipped step leaves Q and R entirely unchanged.
   */
  function Step(v: Variant, n: nat, p: nat, tiny: real, invSqrt: real -> real, st: QR, x: Site): (st': QR)
    requires 0.0 <= tiny && Shaped(n, p, st) && ValidSite(n, p, x)
    ensures Shaped(n, p, st')
    ensures Skipped(v, n, p, tiny, st, x) ==> st' == st
  {
    if Skipped(v, n, p, tiny, st, x) then st
    else
      var (c, s) := StepRotation(v, n, p, tiny, invSqrt, st, x);
      QR(RotateLinesUpTo(v, n, st.q, x.row, c, s, n), RotateRowsUpTo(v, n, p, st.r, x.row, c, s, p))
  }

  /**
   * Frame and values of a step on R: outside rows i-1 and i nothing
   * changes; a taken step writes c*t1 + s*t2 to row i-1 and -s*t1 + c*t2
   * to row i of every column.
   */
  lemma StepR(v: Variant, n: nat, p: nat, tiny: real, invSqrt: real -> real, st: QR, x: Site, row: nat, col: nat)
    requires 0.0 <= tiny && Shaped(n, p, st) && ValidSite(n, p, x) && row < n && col < p
    ensures var r' := Step(v, n, p, tiny, invSqrt, st, x).r;
      var t1, t2 := st.r[RIndex(v, n, p, x.row - 1, col)], st.r[RIndex(v, n, p, x.row, col)];
      r'[RIndex(v, n, p, row, col)] ==
        if Skipped(v, n, p, tiny, st, x) || (row != x.row - 1 && row != x.row) then st.r[RIndex(v, n, p, row, col)]
        else
          var (c, s) := StepRotation(v, n, p, tiny, invSqrt, st, x);
          if row == x.row - 1 then Blend(c, t1, s, t2) else Blend(-s, t1, c, t2)
  {
    if !Skipped(v, n, p, tiny, st, x) {
      var (c, s) := StepRotation(v, n, p, tiny, invSqrt, st, x);
      assert Step(v, n, p, tiny, invSqrt, st, x).r == RotateRowsUpTo(v, n, p, st.r, x.row, c, s, p);
      RotateRowsUpToAt(v, n, p, st.r, x.row, c, s, p, row, col);
    }
  }

  /**
   * Frame and values of a step on Q: outside lines i-1 and i nothing
   * changes; a taken step writes c*t1 - s*t2 to line i and s*t1 + c*t2 to
   * line i-1 at every position.
   */
  lemma StepQ(v: Variant, n: nat, p: nat, tiny: real, invSqrt: real -> real, st: QR, x: Site, line: nat, pos: nat)
    requires 0.0 <= tiny && Shaped(n, p, st) && ValidSite(n, p, x) && line < n && pos < n
    ensures var q' := Step(v, n, p, tiny, invSqrt, st, x).q;
      var t1, t2 := st.q[QIndex(v, n, x.row, pos)], st.q[QIndex(v, n, x.row - 1, pos)];
      q'[QIndex(v, n, line, pos)] ==
        if Skipped(v, n, p, tiny, st, x) || (line != x.row - 1 && line != x.row) then st.q[QIndex(v, n, line, pos)]
        else
          var (c, s) := StepRotation(v, n, p, tiny, invSqrt, st, x);
          if line == x.row then Blend(c, t1, -s, t2) else Blend(s, t1, c, t2)
  {
    if !Skipped(v, n, p, tiny, st, x) {
      var (c, s) := StepRotation(v, n, p, tiny, invSqrt, st, x);
      assert Step(v, n, p, tiny, invSqrt, st, x).q == RotateLinesUpTo(v, n, st.q, x.row, c, s, n);
      RotateLinesUpToAt(v, n, st.q, x.row, c, s, n, line, pos);
    }
  }

  /** In exact arithmetic a taken step makes its target entry R(i, j) zero. */
  lemma StepEliminates(v: Variant, n: nat, p: nat, tiny: real, invSqrt: real -> real, st: QR, x: Site)
    requires 0.0 <= tiny && Shaped(n, p, st) && ValidSite(n, p, x)
    requires !Skipped(v, n, p, tiny, st, x)
    ensures Step(v, n, p, tiny, invSqrt, st, x).r[RIndex(v, n, p, x.row, x.col)] == 0.0
  {
    StepR(v, n, p, tiny, invSqrt, st, x, x.row, x.col);
  }

  /**
   * A step disturbs no pair of zeros: if rows i-1 and i of some column are
   * both 0, they are still 0 afterwards. This is why the bottom-up order
   * keeps the zeros made in earlier columns.
   */
  lemma StepKeepsZeroPair(v: Variant, n: nat, p: nat, tiny: real, invSqrt: real -> real, st: QR, x: Site, col: nat)
    requires 0.0 <= tiny && Shaped(n, p, st) && ValidSite(n, p, x) && col < p
    requires st.r[RIndex(v, n, p, x.row - 1, col)] == 0.0 && st.r[RIndex(v, n, p, x.row, col)] == 0.0
    ensures Step(v, n, p, tiny, invSqrt, st, x).r[RIndex(v, n, p, x.row - 1, col)] == 0.0
    ensures Step(v, n, p, tiny, invSqrt, st, x).r[RIndex(v, n, p, x.row, col)] == 0.0
  {
    StepR(v, n, p, tiny, invSqrt, st, x, x.row - 1, col);
    StepR(v, n, p, tiny, invSqrt, st, x, x.row, col);
  }

  /**
   * The steps of column j that the inner loop has taken once its counter
   * reads i: rows n-1, n-2, ..., i+1, in that order.
   */
  function Pass(n: nat, j: nat, i: nat): seq<Site>
    decreases n - 1 - i
  {
    if i >= n - 1 then [] else Pass(n, j, i + 1) + [Site(i + 1, j)]
  }

  /** The pass of column j below row i visits exactly rows i+1..n-1 of that column. */
  lemma {:induction false} PassMembers(n: nat, j: nat, i: nat)
    ensures forall x :: x in Pass(n, j, i) <==> x.col == j && i < x.row < n
    decreases n - 1 - i
  {
    if i < n - 1 {
      PassMembers(n, j, i + 1);
      var rest := Pass(n, j, i + 1);
      assert forall x :: x in rest + [Site(i + 1, j)] <==> x in rest || x == Site(i + 1, j);
    }
  }

  /** All steps of columns 0..j-1, column by column. */
  function ScheduleUpTo(n: nat, j: nat): seq<Site>
  {
    if j == 0 then [] else ScheduleUpTo(n, j - 1) + Pass(n, j - 1, j - 1)
  }

  /** The steps of columns 0..j-1 are exactly the subdiagonal cells of those columns. */
  lemma {:induction false} ScheduleMembers(n: nat, j: nat)
    ensures forall x :: x in ScheduleUpTo(n, j) <==> x.col < j && x.col < x.row < n
  {
    if j > 0 {
      ScheduleMembers(n, j - 1);
      PassMembers(n, j - 1, j - 1);
      var prev, pass := ScheduleUpTo(n, j - 1), Pass(n, j - 1, j - 1);
      assert ScheduleUpTo(n, j) == prev + pass;
      forall x: Site
        ensures x in prev + pass <==> x.col < j && x.col < x.row < n
      {
        assert x in prev + pass <==> x in prev || x in pass;
      }
    }
  }

  /** Every step the sweep of an n-by-p matrix takes, in order. */
  function Schedule(n: nat, p: nat): (xs: seq<Site>)
    ensures forall x :: x in xs <==> ValidSite(n, p, x)
  {
    ScheduleMembers(n, p);
    ScheduleUpTo(n, p)
  }

  /** Step x comes before step y: an earlier column, or a lower row of the same column. */
  predicate Before(x: Site, y: Site)
  {
    x.col < y.col || (x.col == y.col && x.row > y.row)
  }

  /** Every step of xs comes before each later one. */
  predicate InOrder(xs: seq<Site>)
  {
    forall a, b :: 0 <= a < b < |xs| ==> Before(xs[a], xs[b])
  }

  /** Within a column the inner loop counts the row down from n-1. */
  lemma {:induction false} PassOrdered(n: nat, j: nat, i: nat)
    ensures InOrder(Pass(n, j, i))
    decreases n - 1 - i
  {
    if i < n - 1 {
      PassOrdered(n, j, i + 1);
      PassMembers(n, j, i + 1);
      var rest := Pass(n, j, i + 1);
      var xs := rest + [Site(i + 1, j)];
      forall a, b | 0 <= a < b < |xs| ensures Before(xs[a], xs[b]) {
        assert xs[a] == rest[a];
        if b == |rest| {
          assert rest[a] in rest;
          assert xs[b] == Site(i + 1, j);
        } else {
          assert xs[b] == rest[b];
          assert Before(rest[a], rest[b]);
        }
      }
    }
  }

  /**
   * The loop order: column j ascending and, within a column, row i
   * strictly descending. Every step is taken once.
   */
  lemma {:induction false} ScheduleOrdered(n: nat, j: nat)
    ensures InOrder(ScheduleUpTo(n, j))
  {
    if j > 0 {
      ScheduleOrdered(n, j - 1);
      PassOrdered(n, j - 1, j - 1);
      ScheduleMembers(n, j - 1);
      PassMembers(n, j - 1, j - 1);
      var prev, pass := ScheduleUpTo(n, j - 1), Pass(n, j - 1, j - 1);
      var xs := prev + pass;
      forall a, b | 0 <= a < b < |xs| ensures Before(xs[a], xs[b]) {
        if b < |prev| {
          assert xs[a] == prev[a] && xs[b] == prev[b];
          assert Before(prev[a], prev[b]);
        } else if a < |prev| {
          assert xs[a] == prev[a] && prev[a] in prev;
          assert xs[b] == pass[b - |prev|] && pass[b - |prev|] in pass;
        } else {
          assert xs[a] == pass[a - |prev|] && xs[b] == pass[b - |prev|];
          assert Before(pass[a - |prev|], pass[b - |prev|]);
        }
      }
    }
  }

  /** Column j has n-1-j steps. */
  lemma {:induction false} PassLength(n: nat, j: nat, i: nat)
    requires i <= n - 1
    ensures |Pass(n, j, i)| == n - 1 - i
    decreases n - 1 - i
  {
    if i < n - 1 {
      PassLength(n, j, i + 1);
    }
  }

  /** Columns 0..j-1 of an n-row sweep hold n*j - j*(j+1)/2 steps, at most n*j. */
  lemma {:induction false} ScheduleLength(n: nat, j: nat)
    requires j <= n
    ensures 2 * |ScheduleUpTo(n, j)| + j * (j + 1) == 2 * (n * j)
    ensures |ScheduleUpTo(n, j)| <= n * j
  {
    if j > 0 {
      ScheduleLength(n, j - 1);
      PassLength(n, j - 1, j - 1);
      assert |ScheduleUpTo(n, j)| == |ScheduleUpTo(n, j - 1)| + (n - j);
      CountStep(n, j, |ScheduleUpTo(n, j - 1)|, |ScheduleUpTo(n, j)|);
    }
  }

  lemma CountStep(n: nat, j: nat, m: nat, m': nat)
    requires 0 < j <= n
    requires 2 * m + (j - 1) * j == 2 * (n * (j - 1)) && m' == m + (n - j)
    ensures 2 * m' + j * (j + 1) == 2 * (n * j) && m' <= n * j
  {
    assert (j - 1) * j == j * j - j;
    assert j * (j + 1) == j * j + j;
    assert n * (j - 1) == n * j - n;
  }

  /** Every step of xs is one the sweep of an n-by-p matrix can take. */
  predicate AllValid(n: nat, p: nat, xs: seq<Site>)
  {
    forall k :: 0 <= k < |xs| ==> ValidSite(n, p, xs[k])
  }

  /** The state after the steps xs, taken one by one from the first. */
  function ApplyAll(v: Variant, n: nat, p: nat, tiny: real, invSqrt: real -> real, st: QR, xs: seq<Site>): (st': QR)
    requires 0.0 <= tiny && Shaped(n, p, st) && AllValid(n, p, xs)
    ensures Shaped(n, p, st')
    decreases |xs|
  {
    if xs == [] then st
    else
      var init := xs[..|xs| - 1];
      assert forall k :: 0 <= k < |init| ==> init[k] == xs[k];
      Step(v, n, p, tiny, invSqrt, ApplyAll(v, n, p, tiny, invSqrt, st, init), xs[|xs| - 1])
  }

  /** The schedule of columns 0..j-1 holds only valid steps when j <= p. */
  lemma ScheduleValid(n: nat, p: nat, j: nat)
    requires j <= p
    ensures AllValid(n, p, ScheduleUpTo(n, j))
  {
    var xs := ScheduleUpTo(n, j);
    ScheduleMembers(n, j);
    forall k | 0 <= k < |xs| ensures ValidSite(n, p, xs[k]) {
      assert xs[k] in xs;
    }
  }

  /** So does every prefix the loops reach inside column j < p. */
  lemma TakenValid(n: nat, p: nat, j: nat, i: nat)
    requires j < p && (j <= i || n - 1 <= i)
    ensures AllValid(n, p, Taken(n, j, i))
  {
    var xs := Taken(n, j, i);
    TakenMembers(n, j, i);
    forall k | 0 <= k < |xs| ensures ValidSite(n, p, xs[k]) {
      assert xs[k] in xs;
    }
  }

  /**
   * The steps the two loops of the sweep have taken when their counters
   * read j and i: all of columns 0..j-1, then rows n-1 down to i+1 of
   * column j.
   */
  function Taken(n: nat, j: nat, i: nat): seq<Site>
  {
    ScheduleUpTo(n, j) + Pass(n, j, i)
  }

  /** The steps taken are the earlier columns' subdiagonal cells and rows i+1..n-1 of column j. */
  lemma TakenMembers(n: nat, j: nat, i: nat)
    ensures forall x :: x in Taken(n, j, i) <==> (x.col < j && x.col < x.row < n) || (x.col == j && i < x.row < n)
  {
    ScheduleMembers(n, j);
    PassMembers(n, j, i);
    var prev, pass := ScheduleUpTo(n, j), Pass(n, j, i);
    assert forall x :: x in prev + pass <==> x in prev || x in pass;
  }

  /** A column starts with none of its own steps taken. */
  lemma TakenColumnStart(n: nat, j: nat)
    requires 0 < n
    ensures Taken(n, j, n - 1) == ScheduleUpTo(n, j)
  {
    assert Pass(n, j, n - 1) == [];
    assert ScheduleUpTo(n, j) + [] == ScheduleUpTo(n, j);
  }

  /** Once the row counter reaches j (or column j has no steps), the column is complete. */
  lemma TakenColumnEnd(n: nat, j: nat, i: nat)
    requires i <= n - 1 && (i == j || (i == n - 1 && j >= i))
    ensures Taken(n, j, i) == ScheduleUpTo(n, j + 1)
  {
    if i != j {
      assert Pass(n, j, i) == [] == Pass(n, j, j);
    }
  }

  /** Taking step (i, j) next follows the sweep by exactly that step. */
  lemma TakenStep(v: Variant, n: nat, p: nat, tiny: real, invSqrt: real -> real, st0: QR, j: nat, i: nat)
    requires 0.0 <= tiny && Shaped(n, p, st0) && j < p && j < i <= n - 1
    ensures Taken(n, j, i - 1) == Taken(n, j, i) + [Site(i, j)]
    ensures AllValid(n, p, Taken(n, j, i)) && AllValid(n, p, Taken(n, j, i - 1))
    ensures ApplyAll(v, n, p, tiny, invSqrt, st0, Taken(n, j, i - 1)) ==
      Step(v, n, p, tiny, invSqrt, ApplyAll(v, n, p, tiny, invSqrt, st0, Taken(n, j, i)), Site(i, j))
  {
    var done, x := Taken(n, j, i), Site(i, j);
    TakenValid(n, p, j, i);
    TakenValid(n, p, j, i - 1);
    assert Pass(n, j, i - 1) == Pass(n, j, i) + [x];
    assert Taken(n, j, i - 1) == done + [x];
    assert (done + [x])[..|done|] == done;
  }

  /** st is the state the steps xs lead to from st0. */
  predicate Reached(v: Variant, n: nat, p: nat, tiny: real, invSqrt: real -> real, st0: QR, xs: seq<Site>, st: QR)
  {
    0.0 <= tiny && Shaped(n, p, st0) && AllValid(n, p, xs) && st == ApplyAll(v, n, p, tiny, invSqrt, st0, xs)
  }

  /** Before the loops, no step is taken. */
  lemma ReachedStart(v: Variant, n: nat, p: nat, tiny: real, invSqrt: real -> real, st0: QR)
    requires 0.0 <= tiny && Shaped(n, p, st0)
    ensures Reached(v, n, p, tiny, invSqrt, st0, ScheduleUpTo(n, 0), st0)
  {
  }

  /** Entering column j, the row counter starts at n - 1 with the earlier columns done. */
  lemma ReachedColumnStart(v: Variant, n: nat, p: nat, tiny: real, invSqrt: real -> real, st0: QR, j: nat, st: QR)
    requires 0 < n && j < p && Reached(v, n, p, tiny, invSqrt, st0, ScheduleUpTo(n, j), st)
    ensures Reached(v, n, p, tiny, invSqrt, st0, Taken(n, j, n - 1), st)
  {
    TakenColumnStart(n, j);
  }

  /** One more iteration of the i loop takes exactly step (i, j). */
  lemma ReachedStep(v: Variant, n: nat, p: nat, tiny: real, invSqrt: real -> real, st0: QR, j: nat, i: nat, st: QR)
    requires j < p && j < i <= n - 1 && Reached(v, n, p, tiny, invSqrt, st0, Taken(n, j, i), st)
    ensures Shaped(n, p, st) && ValidSite(n, p, Site(i, j))
    ensures Reached(v, n, p, tiny, invSqrt, st0, Taken(n, j, i - 1), Step(v, n, p, tiny, invSqrt, st, Site(i, j)))
  {
    TakenStep(v, n, p, tiny, invSqrt, st0, j, i);
  }

  /** Leaving the i loop completes column j. */
  lemma ReachedColumnEnd(v: Variant, n: nat, p: nat, tiny: real, invSqrt: real -> real, st0: QR, j: nat, i: nat, st: QR)
    requires j < p && i <= n - 1 && (i == j || (i == n - 1 && j >= i))
    requires Reached(v, n, p, tiny, invSqrt, st0, Taken(n, j, i), st)
    ensures Reached(v, n, p, tiny, invSqrt, st0, ScheduleUpTo(n, j + 1), st)
  {
    TakenColumnEnd(n, j, i);
    ScheduleValid(n, p, j + 1);
  }

  /** The whole sweep, without cleanup. */
  function Sweep(v: Variant, n: nat, p: nat, tiny: real, invSqrt: real -> real, st: QR): (st': QR)
    requires 0.0 <= tiny && Shaped(n, p, st)
    ensures Shaped(n, p, st')
  {
    ScheduleValid(n, p, p);
    ApplyAll(v, n, p, tiny, invSqrt, st, Schedule(n, p))
  }

  /** qr_impl / qr_impl2 with the cleanup flag: the sweep, then R thresholded at tol. */
  function SweepAndClean(v: Variant, n: nat, p: nat, tol: real, cleanup: bool, tiny: real, invSqrt: real -> real, st: QR): (st': QR)
    requires 0.0 <= tiny && Shaped(n, p, st)
    ensures Shaped(n, p, st')
    ensures st'.q == Sweep(v, n, p, tiny, invSqrt, st).q
    ensures cleanup ==> forall k :: 0 <= k < |st'.r| ==> st'.r[k] == 0.0 || Abs(st'.r[k]) >= tol
    ensures !cleanup ==> st' == Sweep(v, n, p, tiny, invSqrt, st)
  {
    var swept := Sweep(v, n, p, tiny, invSqrt, st);
    if cleanup then QR(swept.q, Thresholded(swept.r, tol)) else swept
  }

  /** Below the diagonal, columns 0..j-1 of R are zero. */
  ghost predicate ColumnsCleared(v: Variant, n: nat, p: nat, r: seq<real>, j: nat)
    requires |r| == n * p && j <= p
  {
    forall row: nat, col: nat :: col < j && col < row < n ==> r[RIndex(v, n, p, row, col)] == 0.0
  }

  /** Rows i+1..n-1 of column j of R are zero. */
  ghost predicate ColumnClearedBelow(v: Variant, n: nat, p: nat, r: seq<real>, j: nat, i: nat)
    requires |r| == n * p && j < p
  {
    forall row: nat :: i < row < n ==> r[RIndex(v, n, p, row, j)] == 0.0
  }

  /** A step keeps a zero outside the two rows it rotates. */
  lemma StepKeepsOtherZero(v: Variant, n: nat, p: nat, tiny: real, invSqrt: real -> real, st: QR, x: Site, row: nat, col: nat)
    requires 0.0 <= tiny && Shaped(n, p, st) && ValidSite(n, p, x) && row < n && col < p
    requires row != x.row - 1 && row != x.row && st.r[RIndex(v, n, p, row, col)] == 0.0
    ensures Step(v, n, p, tiny, invSqrt, st, x).r[RIndex(v, n, p, row, col)] == 0.0
  {
    StepR(v, n, p, tiny, invSqrt, st, x, row, col);
  }

  /** With an exact zero test a step leaves its target entry zero, taken or skipped. */
  lemma StepZeroesTarget(v: Variant, n: nat, p: nat, tiny: real, invSqrt: real -> real, st: QR, x: Site)
    requires tiny == 0.0 && Shaped(n, p, st) && ValidSite(n, p, x)
    ensures Step(v, n, p, tiny, invSqrt, st, x).r[RIndex(v, n, p, x.row, x.col)] == 0.0
  {
    if !Skipped(v, n, p, tiny, st, x) {
      StepEliminates(v, n, p, tiny, invSqrt, st, x);
    }
  }

  /**
   * With an exact zero test (tiny = 0), step (i, j) keeps the earlier
   * columns cleared and adds row i to the cleared rows of column j.
   */
  lemma StepClears(v: Variant, n: nat, p: nat, tiny: real, invSqrt: real -> real, st: QR, j: nat, i: nat)
    requires tiny == 0.0 && Shaped(n, p, st) && j < p && j < i < n
    requires ColumnsCleared(v, n, p, st.r, j) && ColumnClearedBelow(v, n, p, st.r, j, i)
    ensures var r' := Step(v, n, p, tiny, invSqrt, st, Site(i, j)).r;
      ColumnsCleared(v, n, p, r', j) && ColumnClearedBelow(v, n, p, r', j, i - 1)
  {
    var x := Site(i, j);
    var r' := Step(v, n, p, tiny, invSqrt, st, x).r;
    forall row: nat, col: nat | col < j && col < row < n
      ensures r'[RIndex(v, n, p, row, col)] == 0.0
    {
      if row == i - 1 || row == i {
        assert st.r[RIndex(v, n, p, i - 1, col)] == 0.0 && st.r[RIndex(v, n, p, i, col)] == 0.0;
        StepKeepsZeroPair(v, n, p, tiny, invSqrt, st, x, col);
      } else {
        assert st.r[RIndex(v, n, p, row, col)] == 0.0;
        StepKeepsOtherZero(v, n, p, tiny, invSqrt, st, x, row, col);
      }
    }
    forall row: nat | i - 1 < row < n
      ensures r'[RIndex(v, n, p, row, j)] == 0.0
    {
      if row == i {
        StepZeroesTarget(v, n, p, tiny, invSqrt, st, x);
      } else {
        assert st.r[RIndex(v, n, p, row, j)] == 0.0;
        StepKeepsOtherZero(v, n, p, tiny, invSqrt, st, x, row, j);
      }
    }
  }

  /**
   * The cleared part once the row counter of column j reads i: below the
   * diagonal, the earlier columns and rows i+1..n-1 of column j are zero.
   */
  ghost predicate PassCleared(v: Variant, n: nat, p: nat, tiny: real, invSqrt: real -> real, st0: QR, j: nat, i: nat)
    requires 0.0 <= tiny && Shaped(n, p, st0) && j < p
  {
    AllValid(n, p, Taken(n, j, i)) &&
    var r := ApplyAll(v, n, p, tiny, invSqrt, st0, Taken(n, j, i)).r;
    ColumnsCleared(v, n, p, r, j) && ColumnClearedBelow(v, n, p, r, j, i)
  }

  /** Entering column j, the row counter reads n - 1 and only the earlier columns are cleared. */
  lemma ColumnPassStart(v: Variant, n: nat, p: nat, tiny: real, invSqrt: real -> real, st0: QR, j: nat)
    requires tiny == 0.0 && Shaped(n, p, st0) && j < p && 0 < n
    requires AllValid(n, p, ScheduleUpTo(n, j))
    requires ColumnsCleared(v, n, p, ApplyAll(v, n, p, tiny, invSqrt, st0, ScheduleUpTo(n, j)).r, j)
    ensures PassCleared(v, n, p, tiny, invSqrt, st0, j, n - 1)
  {
    TakenColumnStart(n, j);
  }

  /** One more iteration of the row loop of column j extends the cleared rows by row i + 1. */
  lemma ColumnPassNext(v: Variant, n: nat, p: nat, tiny: real, invSqrt: real -> real, st0: QR, j: nat, i: nat)
    requires tiny == 0.0 && Shaped(n, p, st0) && j < p && j <= i < n - 1
    requires PassCleared(v, n, p, tiny, invSqrt, st0, j, i + 1)
    ensures PassCleared(v, n, p, tiny, invSqrt, st0, j, i)
  {
    TakenStep(v, n, p, tiny, invSqrt, st0, j, i + 1);
    var st := ApplyAll(v, n, p, tiny, invSqrt, st0, Taken(n, j, i + 1));
    var st' := ApplyAll(v, n, p, tiny, invSqrt, st0, Taken(n, j, i));
    assert st' == Step(v, n, p, tiny, invSqrt, st, Site(i + 1, j));
    StepClears(v, n, p, tiny, invSqrt, st, j, i + 1);
  }

  /**
   * While the row loop of column j runs, the cleared part grows from the
   * bottom: once the counter reads i, rows i+1..n-1 of column j are zero
   * and so are the earlier columns below the diagonal.
   */
  lemma {:induction false} ColumnPassClears(v: Variant, n: nat, p: nat, tiny: real, invSqrt: real -> real, st0: QR, j: nat, i: nat)
    requires tiny == 0.0 && Shaped(n, p, st0) && j < p && i <= n - 1 && (j <= i || i == n - 1)
    requires AllValid(n, p, ScheduleUpTo(n, j))
    requires ColumnsCleared(v, n, p, ApplyAll(v, n, p, tiny, invSqrt, st0, ScheduleUpTo(n, j)).r, j)
    ensures PassCleared(v, n, p, tiny, invSqrt, st0, j, i)
    decreases n - 1 - i
  {
    if i == n - 1 {
      ColumnPassStart(v, n, p, tiny, invSqrt, st0, j);
    } else {
      ColumnPassClears(v, n, p, tiny, invSqrt, st0, j, i + 1);
      ColumnPassNext(v, n, p, tiny, invSqrt, st0, j, i);
    }
  }

  /** Leaving the row loop, column j is cleared too. */
  lemma ColumnPassEnd(v: Variant, n: nat, p: nat, tiny: real, invSqrt: real -> real, st0: QR, j: nat, i: nat)
    requires tiny == 0.0 && Shaped(n, p, st0) && j < p && i <= n - 1 && (i == j || (i == n - 1 && j >= i))
    requires PassCleared(v, n, p, tiny, invSqrt, st0, j, i)
    ensures AllValid(n, p, ScheduleUpTo(n, j + 1))
    ensures ColumnsCleared(v, n, p, ApplyAll(v, n, p, tiny, invSqrt, st0, ScheduleUpTo(n, j + 1)).r, j + 1)
  {
    TakenColumnEnd(n, j, i);
  }

  /** After the steps of columns 0..j-1, those columns are zero below the diagonal. */
  lemma {:induction false} ScheduleClears(v: Variant, n: nat, p: nat, tiny: real, invSqrt: real -> real, st0: QR, j: nat)
    requires tiny == 0.0 && Shaped(n, p, st0) && j <= p
    ensures AllValid(n, p, ScheduleUpTo(n, j))
    ensures ColumnsCleared(v, n, p, ApplyAll(v, n, p, tiny, invSqrt, st0, ScheduleUpTo(n, j)).r, j)
  {
    ScheduleValid(n, p, j);
    if j > 0 && n > 0 {
      var c := j - 1;
      var last := if c <= n - 1 then c else n - 1;
      ScheduleClears(v, n, p, tiny, invSqrt, st0, c);
      ColumnPassClears(v, n, p, tiny, invSqrt, st0, c, last);
      ColumnPassEnd(v, n, p, tiny, invSqrt, st0, c, last);
    }
  }

  /**
   * With an exact zero test (tiny = 0) the whole sweep leaves R
   * upper-triangular: every entry below the diagonal is zero, whatever
   * invSqrt returns.
   */
  lemma SweepUpperTriangular(v: Variant, n: nat, p: nat, tiny: real, invSqrt: real -> real, st: QR)
    requires tiny == 0.0 && Shaped(n, p, st)
    ensures forall i: nat, j: nat :: j < p && j < i < n ==> Sweep(v, n, p, tiny, invSqrt, st).r[RIndex(v, n, p, i, j)] == 0.0
  {
    ScheduleClears(v, n, p, tiny, invSqrt, st, p);
  }

  /**
   * A baseline state b and a transpose state t hold the same matrices:
   * every entry of R and every (line, position) of Q is equal, each read
   * in its own layout.
   */
  ghost predicate SameEntries(n: nat, p: nat, b: QR, t: QR)
    requires Shaped(n, p, b) && Shaped(n, p, t)
  {
    (forall row: nat, col: nat :: row < n && col < p ==>
      b.r[RIndex(Baseline, n, p, row, col)] == t.r[RIndex(Transpose, n, p, row, col)]) &&
    (forall line: nat, pos: nat :: line < n && pos < n ==>
      b.q[QIndex(Baseline, n, line, pos)] == t.q[QIndex(Transpose, n, line, pos)])
  }

  /** Entry (row, col) of R after the same step in both layouts, from the entries it reads. */
  lemma StepSameR(n: nat, p: nat, tiny: real, invSqrt: real -> real, b: QR, t: QR, x: Site, row: nat, col: nat)
    requires 0.0 <= tiny && Shaped(n, p, b) && Shaped(n, p, t) && ValidSite(n, p, x) && row < n && col < p
    requires b.r[RIndex(Baseline, n, p, x.row, x.col)] == t.r[RIndex(Transpose, n, p, x.row, x.col)]
    requires b.r[RIndex(Baseline, n, p, x.row - 1, x.col)] == t.r[RIndex(Transpose, n, p, x.row - 1, x.col)]
    requires b.r[RIndex(Baseline, n, p, row, col)] == t.r[RIndex(Transpose, n, p, row, col)]
    requires b.r[RIndex(Baseline, n, p, x.row - 1, col)] == t.r[RIndex(Transpose, n, p, x.row - 1, col)]
    requires b.r[RIndex(Baseline, n, p, x.row, col)] == t.r[RIndex(Transpose, n, p, x.row, col)]
    ensures Step(Baseline, n, p, tiny, invSqrt, b, x).r[RIndex(Baseline, n, p, row, col)] ==
      Step(Transpose, n, p, tiny, invSqrt, t, x).r[RIndex(Transpose, n, p, row, col)]
  {
    StepR(Baseline, n, p, tiny, invSqrt, b, x, row, col);
    StepR(Transpose, n, p, tiny, invSqrt, t, x, row, col);
  }

  /** Position pos of line `line` of Q after the same step in both layouts, from the entries it reads. */
  lemma StepSameQ(n: nat, p: nat, tiny: real, invSqrt: real -> real, b: QR, t: QR, x: Site, line: nat, pos: nat)
    requires 0.0 <= tiny && Shaped(n, p, b) && Shaped(n, p, t) && ValidSite(n, p, x) && line < n && pos < n
    requires b.r[RIndex(Baseline, n, p, x.row, x.col)] == t.r[RIndex(Transpose, n, p, x.row, x.col)]
    requires b.r[RIndex(Baseline, n, p, x.row - 1, x.col)] == t.r[RIndex(Transpose, n, p, x.row - 1, x.col)]
    requires b.q[QIndex(Baseline, n, line, pos)] == t.q[QIndex(Transpose, n, line, pos)]
    requires b.q[QIndex(Baseline, n, x.row - 1, pos)] == t.q[QIndex(Transpose, n, x.row - 1, pos)]
    requires b.q[QIndex(Baseline, n, x.row, pos)] == t.q[QIndex(Transpose, n, x.row, pos)]
    ensures Step(Baseline, n, p, tiny, invSqrt, b, x).q[QIndex(Baseline, n, line, pos)] ==
      Step(Transpose, n, p, tiny, invSqrt, t, x).q[QIndex(Transpose, n, line, pos)]
  {
    StepQ(Baseline, n, p, tiny, invSqrt, b, x, line, pos);
    StepQ(Transpose, n, p, tiny, invSqrt, t, x, line, pos);
  }

  /** The two layouts take the same step on the same matrices: the skip test and the rotation agree. */
  lemma StepSameEntries(n: nat, p: nat, tiny: real, invSqrt: real -> real, b: QR, t: QR, x: Site)
    requires 0.0 <= tiny && Shaped(n, p, b) && Shaped(n, p, t) && ValidSite(n, p, x)
    requires SameEntries(n, p, b, t)
    ensures SameEntries(n, p, Step(Baseline, n, p, tiny, invSqrt, b, x), Step(Transpose, n, p, tiny, invSqrt, t, x))
  {
    var b', t' := Step(Baseline, n, p, tiny, invSqrt, b, x), Step(Transpose, n, p, tiny, invSqrt, t, x);
    assert b.r[RIndex(Baseline, n, p, x.row, x.col)] == t.r[RIndex(Transpose, n, p, x.row, x.col)];
    assert b.r[RIndex(Baseline, n, p, x.row - 1, x.col)] == t.r[RIndex(Transpose, n, p, x.row - 1, x.col)];
    forall row: nat, col: nat | row < n && col < p
      ensures b'.r[RIndex(Baseline, n, p, row, col)] == t'.r[RIndex(Transpose, n, p, row, col)]
    {
      assert b.r[RIndex(Baseline, n, p, row, col)] == t.r[RIndex(Transpose, n, p, row, col)];
      assert b.r[RIndex(Baseline, n, p, x.row - 1, col)] == t.r[RIndex(Transpose, n, p, x.row - 1, col)];
      assert b.r[RIndex(Baseline, n, p, x.row, col)] == t.r[RIndex(Transpose, n, p, x.row, col)];
      StepSameR(n, p, tiny, invSqrt, b, t, x, row, col);
    }
    forall line: nat, pos: nat | line < n && pos < n
      ensures b'.q[QIndex(Baseline, n, line, pos)] == t'.q[QIndex(Transpose, n, line, pos)]
    {
      assert b.q[QIndex(Baseline, n, line, pos)] == t.q[QIndex(Transpose, n, line, pos)];
      assert b.q[QIndex(Baseline, n, x.row - 1, pos)] == t.q[QIndex(Transpose, n, x.row - 1, pos)];
      assert b.q[QIndex(Baseline, n, x.row, pos)] == t.q[QIndex(Transpose, n, x.row, pos)];
      StepSameQ(n, p, tiny, invSqrt, b, t, x, line, pos);
    }
  }

  /** Taking the same steps in both layouts keeps the matrices equal. */
  lemma {:induction false} ApplyAllSameEntries(n: nat, p: nat, tiny: real, invSqrt: real -> real, b: QR, t: QR, xs: seq<Site>)
    requires 0.0 <= tiny && Shaped(n, p, b) && Shaped(n, p, t) && AllValid(n, p, xs)
    requires SameEntries(n, p, b, t)
    ensures SameEntries(n, p, ApplyAll(Baseline, n, p, tiny, invSqrt, b, xs), ApplyAll(Transpose, n, p, tiny, invSqrt, t, xs))
    decreases |xs|
  {
    if xs != [] {
      var init := xs[..|xs| - 1];
      assert forall k :: 0 <= k < |init| ==> init[k] == xs[k];
      ApplyAllSameEntries(n, p, tiny, invSqrt, b, t, init);
      StepSameEntries(n, p, tiny, invSqrt, ApplyAll(Baseline, n, p, tiny, invSqrt, b, init), ApplyAll(Transpose, n, p, tiny, invSqrt, t, init), xs[|xs| - 1]);
    }
  }

  /**
   * qr_impl and qr_impl2 compute the same thing: started on the same
   * matrices, each in its own layout, the sweeps (with or without
   * cleanup) end on the same matrices.
   */
  lemma SweepSameEntries(n: nat, p: nat, tol: real, cleanup: bool, tiny: real, invSqrt: real -> real, b: QR, t: QR)
    requires 0.0 <= tiny && Shaped(n, p, b) && Shaped(n, p, t)
    requires SameEntries(n, p, b, t)
    ensures SameEntries(n, p, SweepAndClean(Baseline, n, p, tol, cleanup, tiny, invSqrt, b), SweepAndClean(Transpose, n, p, tol, cleanup, tiny, invSqrt, t))
  {
    ScheduleValid(n, p, p);
    ApplyAllSameEntries(n, p, tiny, invSqrt, b, t, Schedule(n, p));
    var b', t' := Sweep(Baseline, n, p, tiny, invSqrt, b), Sweep(Transpose, n, p, tiny, invSqrt, t);
    if cleanup {
      forall row: nat, col: nat | row < n && col < p
        ensures Thresholded(b'.r, tol)[RIndex(Baseline, n, p, row, col)] == Thresholded(t'.r, tol)[RIndex(Transpose, n, p, row, col)]
      {
        assert b'.r[RIndex(Baseline, n, p, row, col)] == t'.r[RIndex(Transpose, n, p, row, col)];
      }
    }
  }
}
