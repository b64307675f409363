module AuxMatrix {
  // Setting and adding values in the row buffers of a matrix, sequentially and with threads.

  import opened Basics
  import opened SparseRows
  import opened Blocks

  /** One row of a call: the global row number and its columns and values. */
  datatype RowOp = RowOp(row: int, us: seq<Entry>)

  /** The sum of the first k numbers. */
  function Prefix(ncols: seq<nat>, k: nat): nat
    requires k <= |ncols|
  {
    if k == 0 then 0 else Prefix(ncols, k - 1) + ncols[k - 1]
  }

  lemma {:induction false} PrefixMonotone(ncols: seq<nat>, i: nat, j: nat)
    requires i <= j <= |ncols|
    ensures Prefix(ncols, i) <= Prefix(ncols, j)
    decreases j - i
  {
    if i < j { PrefixMonotone(ncols, i, j - 1); }
  }

  /** A call of the setters: nrows rows, row ii having ncols[ii] columns, all columns and values in one stretch. */
  datatype Call = Call(ncols: seq<nat>, rows: seq<int>, cols: seq<int>, values: seq<real>)
  {
    ghost predicate Valid() { |ncols| == |rows| && Prefix(ncols, |ncols|) == |cols| == |values| }

    ghost function Op(ii: nat): RowOp
      requires Valid() && ii < |rows|
    {
      PrefixMonotone(ncols, ii + 1, |ncols|);
      RowOp(rows[ii], Stretch(cols, values, Prefix(ncols, ii), ncols[ii]))
    }

    ghost function Ops(): (ops: seq<RowOp>)
      requires Valid()
      ensures |ops| == |rows| && forall ii :: 0 <= ii < |rows| ==> ops[ii] == Op(ii)
    {
      seq(|rows|, ii requires 0 <= ii < |rows| && Valid() => Op(ii))
    }
  }

  /** One row operation on the whole matrix; rows of other processors leave it alone. */
  ghost function ApplyOp(add: bool, m: seq<seq<Entry>>, first: int, op: RowOp): (r: seq<seq<Entry>>)
    ensures |r| == |m|
  {
    if 0 <= op.row - first < |m| then m[op.row - first := RowUpdate(add, m[op.row - first], op.us)] else m
  }

  ghost function ApplyOps(add: bool, m: seq<seq<Entry>>, first: int, ops: seq<RowOp>): (r: seq<seq<Entry>>)
    ensures |r| == |m|
  {
    if ops == [] then m else ApplyOp(add, ApplyOps(add, m, first, ops[..|ops| - 1]), first, ops[|ops| - 1])
  }

  lemma ApplyOpsSnoc(add: bool, m: seq<seq<Entry>>, first: int, ops: seq<RowOp>, i: nat)
    requires i < |ops|
    ensures ApplyOps(add, m, first, ops[..i + 1]) == ApplyOp(add, ApplyOps(add, m, first, ops[..i]), first, ops[i])
  {
    assert ops[..i + 1][..i] == ops[..i];
  }

  lemma ApplyNone(add: bool, m: seq<seq<Entry>>, first: int, ops: seq<RowOp>)
    ensures ApplyOps(add, m, first, ops[..0]) == m
  {}

  /** Buffers that are empty and share no memory. */
  ghost predicate EmptyRows(rs: seq<RowBuffer>, repr: set<object>)
    reads repr
  {
    && (forall i :: 0 <= i < |rs| ==>
          rs[i] in repr && rs[i].cols in repr && rs[i].vals in repr && rs[i].Valid() && rs[i].length == 0)
    && (forall i, j :: 0 <= i < |rs| && 0 <= j < |rs| && i != j ==>
          rs[i] != rs[j] && rs[i].cols != rs[j].cols && rs[i].vals != rs[j].vals)
  }

  /** The row buffers of the rows a processor owns, global rows first, first + 1, ... */
  class RowMatrix {
    const first: int
    const rows: seq<RowBuffer>
    ghost var Repr: set<object>

    /** The row buffers share no memory. */
    ghost predicate Valid()
      reads this, Repr
    {
      && this in Repr
      && (forall i ::
        0 <= i < |rows| ==> rows[i] in Repr && rows[i].cols in Repr && rows[i].vals in Repr && rows[i].Valid())
      && (forall i, j :: 0 <= i < |rows| && 0 <= j < |rows| && i != j ==>
            rows[i] != rows[j] && rows[i].cols != rows[j].cols && rows[i].vals != rows[j].vals)
    }

    function Contents(): (m: seq<seq<Entry>>)
      requires Valid()
      reads this, Repr
      ensures |m| == |rows| && forall i :: 0 <= i < |rows| ==> m[i] == rows[i].Entries()
    {
      seq(|rows|, i requires 0 <= i < |rows| && Valid() reads this, Repr => rows[i].Entries())
    }

    /** hypre_AuxParCSRMatrixInitialize: an empty buffer for every row, with the space asked for. */
    constructor (first: int, row_space: seq<nat>)
      ensures Valid() && fresh(Repr) && this.first == first && |rows| == |row_space|
      ensures forall i :: 0 <= i < |rows| ==> Contents()[i] == []
    {
      var rs: seq<RowBuffer> := [];
      ghost var repr: set<object> := {};
      for i := 0 to |row_space|
        invariant |rs| == i && EmptyRows(rs, repr) && fresh(repr)
      {
        var r := new RowBuffer(row_space[i]);
        rs, repr := rs + [r], repr + {r, r.cols, r.vals};
      }
      this.first, rows := first, rs;
      Repr := repr + {this};
    }

    /** The work on one row of a call; rows of other processors are not kept here. */
    method SetRow(add: bool, row: int, cs: seq<int>, vs: seq<real>, indx: nat, n: nat)
      requires Valid() && indx + n <= |cs| && indx + n <= |vs|
      modifies Repr
      ensures Valid() && fresh(Repr - old(Repr))
      ensures Contents() == ApplyOp(add, old(Contents()), first, RowOp(row, Stretch(cs, vs, indx, n)))
    {
      if first <= row < first + |rows| { SetLocalRow(add, row - first, cs, vs, indx, n); }
    }

    method SetLocalRow(add: bool, i: nat, cs: seq<int>, vs: seq<real>, indx: nat, n: nat)
      requires Valid() && indx + n <= |cs| && indx + n <= |vs| && i < |rows|
      modifies Repr
      ensures Valid() && fresh(Repr - old(Repr))
      ensures Contents() == old(Contents())[i := RowUpdate(add, old(Contents())[i], Stretch(cs, vs, indx, n))]
    {
      ghost var before := Contents();
      var r := rows[i];
      r.Update(add, cs, vs, indx, n);
      Repr := Repr + {r.cols, r.vals};
      assert forall k :: 0 <= k < |rows| && k != i ==> rows[k].Entries() == before[k];
    }

    /** Row ii of a call, whose columns and values start at `indx`. */
    method CallRow(add: bool, call: Call, ii: nat, indx: nat)
      requires Valid() && call.Valid() && ii < |call.rows| && indx == Prefix(call.ncols, ii)
      modifies Repr
      ensures Valid() && fresh(Repr - old(Repr))
      ensures Contents() == ApplyOp(add, old(Contents()), first, call.Op(ii))
    {
      PrefixMonotone(call.ncols, ii + 1, |call.ncols|);
      SetRow(add, call.rows[ii], call.cols, call.values, indx, call.ncols[ii]);
    }

    /** hypre_IJMatrixSetValuesParCSR (add = false) and hypre_IJMatrixAddToValuesParCSR (add = true) on a
        matrix that is not assembled: their effect on the owned rows. */
    method SetValues(add: bool, call: Call)
      requires Valid() && call.Valid()
      modifies Repr
      ensures Valid() && fresh(Repr - old(Repr))
      ensures Contents() == ApplyOps(add, old(Contents()), first, call.Ops())
    {
      hide RowMatrix.Valid, ApplyOp, ApplyOps;
      ghost var m := Contents();
      ApplyNone(add, m, first, call.Ops());
      var indx := 0;
      for ii := 0 to |call.rows|
        invariant indx == Prefix(call.ncols, ii)
        invariant Valid() && fresh(Repr - old(Repr))
        invariant Contents() == ApplyOps(add, m, first, call.Ops()[..ii])
      {
        ApplyOpsSnoc(add, m, first, call.Ops(), ii);
        CallRow(add, call, ii, indx);
        indx := indx + call.ncols[ii];
      }
      assert call.Ops()[..|call.rows|] == call.Ops();
    }

    /** hypre_IJMatrixSetValuesOMPParCSR and its AddTo twin on a matrix that uses row buffers.  Between two
        barriers the threads work on their rows in any interleaving: each turn of the loop lets an
        arbitrary thread do its next row.  The result is that of the sequential setter. */
    method SetValuesOMP(add: bool, call: Call, threads: nat, max_threads: nat)
      requires Valid() && call.Valid() && 1 <= threads <= max_threads
      requires DistinctRows(call.Ops())
      modifies Repr
      ensures Valid() && fresh(Repr - old(Repr))
      ensures Contents() == ApplyOps(add, old(Contents()), first, call.Ops())
    {
      hide RowMatrix.Valid, ApplyOp, ApplyOps, Applied, Standing, DoneSoFar;
      ghost var m, ops := Contents(), call.Ops();
      var n := |call.rows|;
      var lo, hi := ThreadBlocks(n, threads);
      var pos := lo;
      var indx := Offsets(call.ncols, lo, hi, max_threads);
      StandingStart(n, lo, hi);
      AppliedNone(add, m, first, ops);
      ghost var done: set<nat> := {};
      while exists t :: 0 <= t < threads && pos[t] < hi[t]
        invariant |pos| == threads && Standing(n, lo, pos, hi) && DoneSoFar(lo, pos, done)
        invariant AtOffsets(call.ncols, pos, indx)
        invariant Valid() && fresh(Repr - old(Repr))
        invariant Applied(add, m, Contents(), first, ops, done)
        decreases Below(n) - done
      {
        var t :| 0 <= t < threads && pos[t] < hi[t];
        StandingNext(n, lo, pos, hi, done, t);
        AtOffsetsNext(call.ncols, pos, indx, t);
        AppliedNext(add, m, Contents(), first, ops, done, pos[t]);
        CallRow(add, call, pos[t], indx[t]);
        done := done + {pos[t]};
        pos, indx := pos[t := pos[t] + 1], indx[t := indx[t] + call.ncols[pos[t]]];
      }
      AllDone(n, lo, pos, hi, done);
      SequentialIsApplied(add, m, first, ops, Contents());
    }
  }

  // ------------------------------------------------------------------ threads

  /** The first parallel phase: each thread sums up the column counts of its own rows. */
  method BlockSums(ncols: seq<nat>, lo: seq<nat>, hi: seq<nat>, starts: array<int>)
    requires |lo| == |hi| < starts.Length && Chained(lo, hi, 0, |ncols|)
    modifies starts
    ensures forall s ::
      0 <= s < |lo| ==> hi[s] <= |ncols| && lo[s] <= |ncols| && starts[s] == Prefix(ncols, hi[s]) - Prefix(ncols, lo[s])
  {
    for t := 0 to |lo|
      invariant forall s :: 0 <= s < t ==>
        hi[s] <= |ncols| && lo[s] <= |ncols| && starts[s] == Prefix(ncols, hi[s]) - Prefix(ncols, lo[s])
    {
      BlockWithin(lo, hi, 0, |ncols|, t);
      var sum := 0;
      for ii := lo[t] to hi[t]
        invariant sum == Prefix(ncols, ii) - Prefix(ncols, lo[t])
      {
        sum := sum + ncols[ii];
      }
      starts[t] := sum;
    }
  }

  /** The serial prefix sum between the barriers, over all max_threads cells: each thread's sum becomes
      the sum of ncols over its own and all earlier rows. */
  method PrefixSums(starts: array<int>, ghost ncols: seq<nat>, ghost lo: seq<nat>, ghost hi: seq<nat>)
    requires 1 <= |lo| == |hi| < starts.Length && Chained(lo, hi, 0, |ncols|)
    requires forall s ::
      0 <= s < |lo| ==> hi[s] <= |ncols| && lo[s] <= |ncols| && starts[s] == Prefix(ncols, hi[s]) - Prefix(ncols, lo[s])
    modifies starts
    ensures forall s :: 0 <= s < |lo| ==> starts[s] == Prefix(ncols, hi[s])
  {
    for i := 0 to starts.Length - 1
      invariant forall s :: 0 <= s < |lo| && s <= i ==> starts[s] == Prefix(ncols, hi[s])
      invariant forall s :: i < s < |lo| ==> starts[s] == Prefix(ncols, hi[s]) - Prefix(ncols, lo[s])
    {
      if i + 1 < |lo| { BlocksInOrder(lo, hi, 0, |ncols|, i, i + 1); }
      starts[i + 1] := starts[i + 1] + starts[i];
    }
  }

  /** Thread t knows where the columns of row pos[t] start: after those of all earlier rows. */
  ghost predicate AtOffsets(ncols: seq<nat>, pos: seq<nat>, indx: seq<nat>) {
    |pos| == |indx| && forall t :: 0 <= t < |pos| ==> pos[t] <= |ncols| && indx[t] == Prefix(ncols, pos[t])
  }

  lemma AtOffsetsNext(ncols: seq<nat>, pos: seq<nat>, indx: seq<nat>, t: nat)
    requires AtOffsets(ncols, pos, indx) && t < |pos| && pos[t] < |ncols|
    ensures AtOffsets(ncols, pos[t := pos[t] + 1], indx[t := indx[t] + ncols[pos[t]]])
  {}

  /** Each thread's start offset. */
  method Offsets(ncols: seq<nat>, lo: seq<nat>, hi: seq<nat>, max_threads: nat) returns (indx: seq<nat>)
    requires 1 <= |lo| == |hi| <= max_threads && Chained(lo, hi, 0, |ncols|)
    ensures AtOffsets(ncols, lo, indx)
  {
    var value_start := new int[max_threads + 1](_ => 0);
    BlockSums(ncols, lo, hi, value_start);
    PrefixSums(value_start, ncols, lo, hi);
    indx := [0];
    while |indx| < |lo|
      invariant 1 <= |indx| <= |lo|
        && forall t :: 0 <= t < |indx| ==> lo[t] <= |ncols| && indx[t] == Prefix(ncols, lo[t])
      invariant forall t :: 0 <= t < |lo| ==> hi[t] <= |ncols| && value_start[t] == Prefix(ncols, hi[t])
    {
      BlocksInOrder(lo, hi, 0, |ncols|, |indx| - 1, |indx|);
      indx := indx + [value_start[|indx| - 1]];
    }
  }

  /** No two rows of the call are the same: what HYPRE_IJ_mv.h asks of callers of the threaded setters. */
  ghost predicate DistinctRows(ops: seq<RowOp>) {
    forall i, j :: 0 <= i < j < |ops| ==> ops[i].row != ops[j].row
  }

  /** m is m0 after exactly the row operations in `done`, in any order. */
  ghost predicate Applied(add: bool, m0: seq<seq<Entry>>, m: seq<seq<Entry>>, first: int, ops: seq<RowOp>,
                          done: set<nat>) {
    && |m| == |m0|
    && (forall ii :: ii in done ==> ii < |ops|)
    && (forall ii :: ii in done && 0 <= ops[ii].row - first < |m0| ==>
          m[ops[ii].row - first] == RowUpdate(add, m0[ops[ii].row - first], ops[ii].us))
    && (forall r :: 0 <= r < |m0| && !Touches(ops, done, first + r) ==> m[r] == m0[r])
  }

  ghost predicate Touches(ops: seq<RowOp>, done: set<nat>, row: int) {
    exists ii :: ii in done && ii < |ops| && ops[ii].row == row
  }

  lemma AppliedNone(add: bool, m: seq<seq<Entry>>, first: int, ops: seq<RowOp>)
    ensures Applied(add, m, m, first, ops, {})
  {}

  lemma AppliedNext(add: bool, m0: seq<seq<Entry>>, m: seq<seq<Entry>>, first: int, ops: seq<RowOp>, done: set<nat>,
                    ii: nat)
    requires DistinctRows(ops) && ii < |ops| && ii !in done
    requires Applied(add, m0, m, first, ops, done)
    ensures Applied(add, m0, ApplyOp(add, m, first, ops[ii]), first, ops, done + {ii})
  {
    hide RowUpdate;
    var m' := ApplyOp(add, m, first, ops[ii]);
    var r := ops[ii].row - first;
    if 0 <= r < |m0| {
      assert !Touches(ops, done, first + r);
      assert m[r] == m0[r];
    }
    forall k | 0 <= k < |m0| && !Touches(ops, done + {ii}, first + k) ensures m'[k] == m0[k] {
      assert ops[ii].row == first + k ==> Touches(ops, done + {ii}, first + k);
      assert !Touches(ops, done, first + k);
    }
  }

  lemma {:induction false} SequentialApplied(add: bool, m: seq<seq<Entry>>, first: int, ops: seq<RowOp>, k: nat)
    requires DistinctRows(ops) && k <= |ops|
    ensures Applied(add, m, ApplyOps(add, m, first, ops[..k]), first, ops, Below(k))
  {
    hide *;
    if k == 0 {
      ApplyNone(add, m, first, ops);
      AppliedNone(add, m, first, ops);
      BelowNone();
    } else {
      SequentialApplied(add, m, first, ops, k - 1);
      ApplyOpsSnoc(add, m, first, ops, k - 1);
      AppliedNext(add, m, ApplyOps(add, m, first, ops[..k - 1]), first, ops, Below(k - 1), k - 1);
      BelowNext(k - 1);
    }
  }

  lemma AppliedUnique(add: bool, m0: seq<seq<Entry>>, a: seq<seq<Entry>>, b: seq<seq<Entry>>, first: int,
                      ops: seq<RowOp>, done: set<nat>)
    requires Applied(add, m0, a, first, ops, done) && Applied(add, m0, b, first, ops, done)
    ensures a == b
  {
    forall r | 0 <= r < |m0| ensures a[r] == b[r] { AppliedUniqueAt(add, m0, a, b, first, ops, done, r); }
  }

  lemma AppliedUniqueAt(add: bool, m0: seq<seq<Entry>>, a: seq<seq<Entry>>, b: seq<seq<Entry>>, first: int,
                        ops: seq<RowOp>, done: set<nat>, r: nat)
    requires Applied(add, m0, a, first, ops, done) && Applied(add, m0, b, first, ops, done) && r < |m0|
    ensures a[r] == b[r]
  {
    hide RowUpdate;
    if Touches(ops, done, first + r) {
      var ii :| ii in done && ii < |ops| && ops[ii].row == first + r;
      assert ops[ii].row - first == r;
    }
  }

  lemma SequentialIsApplied(add: bool, m: seq<seq<Entry>>, first: int, ops: seq<RowOp>, r: seq<seq<Entry>>)
    requires DistinctRows(ops) && Applied(add, m, r, first, ops, Below(|ops|))
    ensures r == ApplyOps(add, m, first, ops)
  {
    SequentialApplied(add, m, first, ops, |ops|);
    assert ops[..|ops|] == ops;
    AppliedUnique(add, m, r, ApplyOps(add, m, first, ops), first, ops, Below(|ops|));
  }
}
