/**
 * Where the two elimination sweeps of tinyqr.h keep the entries of the
 * working factor R (n rows, p columns) and of the accumulator Q (n lines of
 * n entries each).
 *
 * Baseline (qr_impl):   R entry (row, col) at col * n + row,
 *                       Q line `line`, position `pos` at pos * n + line.
 * Transpose (qr_impl2): R entry (row, col) at row * p + col,
 *                       Q line `line`, position `pos` at line * n + pos.
 */
module Layout {
  import opened MatrixIndex

  /** The layout selector QRImpl of tinyqr.h. */
  datatype Variant = Baseline | Transpose

  /** Row of R that flat index idx belongs to. */
  function RRow(v: Variant, n: nat, p: nat, idx: nat): nat
    requires 0 < n && 0 < p
  {
    match v
    case Baseline => idx % n
    case Transpose => idx / p
  }

  /** Column of R that flat index idx belongs to. */
  function RCol(v: Variant, n: nat, p: nat, idx: nat): nat
    requires 0 < n && 0 < p
  {
    match v
    case Baseline => idx / n
    case Transpose => idx % p
  }

  /** Flat index of entry (row, col) of the n-by-p factor R: inside the buffer. */
  function RIndex(v: Variant, n: nat, p: nat, row: nat, col: nat): (idx: nat)
    requires row < n && col < p
    ensures idx < n * p
  {
    match v
    case Baseline =>
      FlatBelow(col, row, n, p);
      col * n + row
    case Transpose =>
      FlatBelow(row, col, p, n);
      assert p * n == n * p;
      row * p + col
  }

  /** The flat index of entry (row, col) of R decodes back to (row, col). */
  lemma RIndexDecodes(v: Variant, n: nat, p: nat, row: nat, col: nat)
    requires row < n && col < p
    ensures RRow(v, n, p, RIndex(v, n, p, row, col)) == row
    ensures RCol(v, n, p, RIndex(v, n, p, row, col)) == col
  {
    match v
    case Baseline => FlatDivMod(col, row, n);
    case Transpose => FlatDivMod(row, col, p);
  }

  /** Distinct entries of R never share a slot. */
  lemma RIndexInjective(v: Variant, n: nat, p: nat, row: nat, col: nat, row': nat, col': nat)
    requires row < n && col < p && row' < n && col' < p
    ensures RIndex(v, n, p, row, col) == RIndex(v, n, p, row', col') <==> row == row' && col == col'
  {
    RIndexDecodes(v, n, p, row, col);
    RIndexDecodes(v, n, p, row', col');
  }

  /** Every slot of the R buffer holds exactly one entry (row, col). */
  lemma RIndexOnto(v: Variant, n: nat, p: nat, idx: nat)
    requires 0 < n && 0 < p && idx < n * p
    ensures RRow(v, n, p, idx) < n && RCol(v, n, p, idx) < p
    ensures RIndex(v, n, p, RRow(v, n, p, idx), RCol(v, n, p, idx)) == idx
  {
    match v
    case Baseline =>
      assert n * p == p * n;
      FlatSplit(idx, n, p);
    case Transpose =>
      FlatSplit(idx, p, n);
  }

  /** Line of Q that flat index idx belongs to. */
  function QLine(v: Variant, n: nat, idx: nat): nat
    requires 0 < n
  {
    match v
    case Baseline => idx % n
    case Transpose => idx / n
  }

  /** Position within its line of flat index idx of Q. */
  function QPos(v: Variant, n: nat, idx: nat): nat
    requires 0 < n
  {
    match v
    case Baseline => idx / n
    case Transpose => idx % n
  }

  /** Flat index of position pos of line `line` of the n-by-n accumulator Q. */
  function QIndex(v: Variant, n: nat, line: nat, pos: nat): (idx: nat)
    requires line < n && pos < n
    ensures idx < n * n
  {
    match v
    case Baseline =>
      FlatBelow(pos, line, n, n);
      pos * n + line
    case Transpose =>
      FlatBelow(line, pos, n, n);
      line * n + pos
  }

  /** The flat index of (line, pos) of Q decodes back to (line, pos). */
  lemma QIndexDecodes(v: Variant, n: nat, line: nat, pos: nat)
    requires line < n && pos < n
    ensures QLine(v, n, QIndex(v, n, line, pos)) == line
    ensures QPos(v, n, QIndex(v, n, line, pos)) == pos
  {
    match v
    case Baseline => FlatDivMod(pos, line, n);
    case Transpose => FlatDivMod(line, pos, n);
  }

  /** Distinct positions of Q never share a slot. */
  lemma QIndexInjective(v: Variant, n: nat, line: nat, pos: nat, line': nat, pos': nat)
    requires line < n && pos < n && line' < n && pos' < n
    ensures QIndex(v, n, line, pos) == QIndex(v, n, line', pos') <==> line == line' && pos == pos'
  {
    QIndexDecodes(v, n, line, pos);
    QIndexDecodes(v, n, line', pos');
  }

  /** Every slot of the Q buffer holds exactly one (line, position). */
  lemma QIndexOnto(v: Variant, n: nat, idx: nat)
    requires 0 < n && idx < n * n
    ensures QLine(v, n, idx) < n && QPos(v, n, idx) < n
    ensures QIndex(v, n, QLine(v, n, idx), QPos(v, n, idx)) == idx
  {
    FlatSplit(idx, n, n);
  }
}
