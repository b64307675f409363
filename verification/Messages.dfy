/** Rows of other processors on their way to their owners (hypre_IJMatrixAssembleOffProcValsParCSR, the
    assumed-partition version): what a message looks like. */
module Messages {
  import opened SparseRows
  import opened AuxMatrix

  /** One cell of a message buffer: cells are large enough for either kind of number. */
  datatype Cell = IntCell(i: int) | RealCell(r: real)

  function ColCells(us: seq<Entry>): (r: seq<Cell>)
    ensures |r| == |us| && forall k :: 0 <= k < |us| ==> r[k] == IntCell(us[k].col)
  {
    seq(|us|, k requires 0 <= k < |us| => IntCell(us[k].col))
  }

  function ValCells(us: seq<Entry>): (r: seq<Cell>)
    ensures |r| == |us| && forall k :: 0 <= k < |us| ==> r[k] == RealCell(us[k].val)
  {
    seq(|us|, k requires 0 <= k < |us| => RealCell(us[k].val))
  }

  /** Row number, number of elements, column indices, values. */
  function EncodeRow(op: RowOp): (r: seq<Cell>)
    ensures |r| == 2 + 2 * |op.us|
  {
    [IntCell(op.row), IntCell(|op.us|)] + ColCells(op.us) + ValCells(op.us)
  }

  function EncodeRows(ops: seq<RowOp>): seq<Cell> {
    if ops == [] then [] else EncodeRows(ops[..|ops| - 1]) + EncodeRow(ops[|ops| - 1])
  }

  /** A message: the number of rows, then the rows. */
  function Encode(ops: seq<RowOp>): seq<Cell> { [IntCell(|ops|)] + EncodeRows(ops) }

  function Elements(ops: seq<RowOp>): nat {
    if ops == [] then 0 else Elements(ops[..|ops| - 1]) + |ops[|ops| - 1].us|
  }

  lemma {:induction false} EncodeLength(ops: seq<RowOp>)
    ensures |EncodeRows(ops)| == 2 * |ops| + 2 * Elements(ops)
  {
    if ops != [] { EncodeLength(ops[..|ops| - 1]); }
  }

  /** A stashed row number may be encoded as -row-1. */
  function Actual(row: int): int { if row < 0 then -row - 1 else row }

  /** Both encodings of a row have its owner. */
  lemma ActualIs(row: int)
    requires row >= 0
    ensures Actual(row) == row && Actual(-row - 1) == row
  {}

  /** Those of the first n stashed rows that processor p owns, in order; `owner` is the assumed-partition lookup. */
  function RowsFor(ops: seq<RowOp>, n: nat, owner: int -> int, p: int): seq<RowOp>
    requires n <= |ops|
  {
    if n == 0 then []
      else RowsFor(ops, n - 1, owner, p) + (if owner(Actual(ops[n - 1].row)) == p then [ops[n - 1]] else [])
  }

  lemma RowsForNext(ops: seq<RowOp>, owner: int -> int, p: int, n: nat)
    requires n < |ops|
    ensures var before, after := RowsFor(ops, n, owner, p), RowsFor(ops, n + 1, owner, p);
      if owner(Actual(ops[n].row)) == p
      then after == before + [ops[n]] && Elements(after) == Elements(before) + |ops[n].us|
           && EncodeRows(after) == EncodeRows(before) + EncodeRow(ops[n])
      else after == before
  {
    var before := RowsFor(ops, n, owner, p);
    assert (before + [ops[n]])[..|before|] == before;
  }
}
