/** One processor before the exchange: it runs its calls, keeps its own rows, stashes the others, and packs
    what it has stashed. */
module MatrixRanks {
  import opened SparseRows
  import opened AuxMatrix
  import opened OffProcStashes
  import opened Contacts
  import opened Packing
  import opened Exchange
  import opened Histories
  import opened MatrixHistory

  /** The columns the program cancels in for row ii of a Set: the first ncols[ii] of the whole call. */
  function CancelCols(call: Call, ii: nat): (cs: seq<int>)
    requires call.Valid() && ii < |call.rows|
    ensures |cs| == call.ncols[ii]
  {
    PrefixMonotone(call.ncols, ii + 1, |call.ncols|);
    call.cols[..call.ncols[ii]]
  }

  ghost predicate IsForeign(call: Call, ii: nat, first: int, rows: nat)
    requires call.Valid() && ii < |call.rows|
  {
    !(0 <= call.rows[ii] - first < rows)
  }

  /** The stash after row ii of a call, on a processor with the rows first, ..., first + rows - 1: rows of others are
      appended when they are added; when they are set, what is stashed for them is cancelled. */
  ghost function StashRow(stash: seq<RowOp>, add: bool, call: Call, ii: nat, first: int, rows: nat): seq<RowOp>
    requires call.Valid() && ii < |call.rows|
  {
    if !IsForeign(call, ii, first, rows) then stash
    else if add then stash + [call.Op(ii)]
    else Cancelled(stash, call.rows[ii], CancelCols(call, ii))
  }

  /** ... after its first n rows, ... */
  ghost function StashRows(stash: seq<RowOp>, add: bool, call: Call, n: nat, first: int, rows: nat): seq<RowOp>
    requires call.Valid() && n <= |call.rows|
  {
    if n == 0 then stash else StashRow(StashRows(stash, add, call, n - 1, first, rows), add, call, n - 1, first, rows)
  }

  /** ... and whether anything was cancelled. */
  ghost predicate RowsCancel(stash: seq<RowOp>, add: bool, call: Call, n: nat, first: int, rows: nat)
    requires call.Valid() && n <= |call.rows|
  {
    n > 0 && (RowsCancel(stash, add, call, n - 1, first, rows)
              || RowCancels(StashRows(stash, add, call, n - 1, first, rows), add, call, n - 1, first, rows))
  }

  ghost predicate RowCancels(stash: seq<RowOp>, add: bool, call: Call, ii: nat, first: int, rows: nat)
    requires call.Valid() && ii < |call.rows|
  {
    IsForeign(call, ii, first, rows) && !add && AnyHits(stash, |stash|, call.rows[ii], CancelCols(call, ii))
  }

  /** Cancelling makes no room and needs none. */
  lemma RowFits(stash: seq<RowOp>, add: bool, call: Call, ii: nat, first: int, rows: nat)
    requires call.Valid() && ii < |call.rows| && Fitting(StashRow(stash, add, call, ii, first, rows))
    ensures Fitting(stash)
  {
    if IsForeign(call, ii, first, rows) {
      if add {
        FitsPrefix(stash, [call.Op(ii)]);
      } else {
        RoomOfLengths(stash, Cancelled(stash, call.rows[ii], CancelCols(call, ii)), |stash|);
      }
    }
  }

  /** What fits, fits up to any row of the call. */
  lemma {:induction false} RowsFit(stash: seq<RowOp>, add: bool, call: Call, k: nat, n: nat, first: int, rows: nat)
    requires call.Valid() && k <= n <= |call.rows| && Fitting(StashRows(stash, add, call, n, first, rows))
    ensures Fitting(StashRows(stash, add, call, k, first, rows))
  {
    hide Fitting, StashRow;
    if k < n {
      RowFits(StashRows(stash, add, call, n - 1, first, rows), add, call, n - 1, first, rows);
      RowsFit(stash, add, call, k, n - 1, first, rows);
    }
  }

  /** The row buffers and the stash share no memory. */
  ghost predicate Separate(mat: RowMatrix, stash: OffProcStash)
    reads mat, stash
  {
    && stash !in mat.Repr && stash.off_proc_i !in mat.Repr && stash.off_proc_j !in mat.Repr
      && stash.off_proc_data !in mat.Repr
  }

  /** One row of hypre_IJMatrixSetValuesParCSR (add = false) or hypre_IJMatrixAddToValuesParCSR (add = true): the
      row buffer or the stash takes it. */
  method TakeRow(mat: RowMatrix, stash: OffProcStash, add: bool, call: Call, ii: nat, indx: nat, ghost ops: seq<RowOp>)
    requires mat.Valid() && stash.Keeps(ops) && call.Valid() && Separate(mat, stash)
    requires ii < |call.rows| && indx == Prefix(call.ncols, ii)
    requires Fitting(StashRow(ops, add, call, ii, mat.first, |mat.rows|))
    modifies mat.Repr, stash, stash.off_proc_i, stash.off_proc_j, stash.off_proc_data
    ensures mat.Valid() && Separate(mat, stash) && fresh(mat.Repr - old(mat.Repr))
    ensures mat.Contents() == ApplyOp(add, old(mat.Contents()), mat.first, call.Op(ii))
    ensures stash.Keeps(StashRow(ops, add, call, ii, mat.first, |mat.rows|))
    ensures stash.cancel_indx > 0
      <==> old(stash.cancel_indx) > 0 || RowCancels(ops, add, call, ii, mat.first, |mat.rows|)
    ensures stash.off_proc_i == old(stash.off_proc_i) || fresh(stash.off_proc_i)
    ensures stash.off_proc_j == old(stash.off_proc_j) || fresh(stash.off_proc_j)
    ensures stash.off_proc_data == old(stash.off_proc_data) || fresh(stash.off_proc_data)
  {
    hide Fits, OffProcStash.Keeps, RowMatrix.Valid, RowMatrix.Contents;
    PrefixMonotone(call.ncols, ii + 1, |call.ncols|);
    if mat.first <= call.rows[ii] < mat.first + |mat.rows| {
      mat.CallRow(add, call, ii, indx);
    } else if add {
      StashForeign(stash, call, ii, indx, ops);
    } else {
      stash.CancelForeign(call.rows[ii], call.ncols[ii], call.cols, ops);
    }
  }

  method StashForeign(stash: OffProcStash, call: Call, ii: nat, indx: nat, ghost ops: seq<RowOp>)
    requires stash.Keeps(ops) && call.Valid() && ii < |call.rows| && indx == Prefix(call.ncols, ii)
    requires Fitting(ops + [call.Op(ii)])
    modifies stash, stash.off_proc_i, stash.off_proc_j, stash.off_proc_data
    ensures stash.Keeps(ops + [call.Op(ii)]) && stash.cancel_indx == old(stash.cancel_indx)
    ensures stash.off_proc_i == old(stash.off_proc_i) || fresh(stash.off_proc_i)
    ensures stash.off_proc_j == old(stash.off_proc_j) || fresh(stash.off_proc_j)
    ensures stash.off_proc_data == old(stash.off_proc_data) || fresh(stash.off_proc_data)
  {
    PrefixMonotone(call.ncols, ii + 1, |call.ncols|);
    GrownNext(ops, call.Op(ii));
    stash.AddRow(call.rows[ii], call.ncols[ii], call.cols, call.values, indx, ops);
  }

  /** A whole call of either setter on a matrix that is not assembled. */
  method TakeCall(mat: RowMatrix, stash: OffProcStash, add: bool, call: Call, ghost ops: seq<RowOp>)
    requires mat.Valid() && stash.Keeps(ops) && call.Valid() && Separate(mat, stash)
    requires Fitting(StashRows(ops, add, call, |call.rows|, mat.first, |mat.rows|))
    modifies mat.Repr, stash, stash.off_proc_i, stash.off_proc_j, stash.off_proc_data
    ensures mat.Valid() && Separate(mat, stash) && fresh(mat.Repr - old(mat.Repr))
    ensures mat.Contents() == ApplyOps(add, old(mat.Contents()), mat.first, call.Ops())
    ensures stash.Keeps(StashRows(ops, add, call, |call.rows|, mat.first, |mat.rows|))
    ensures stash.cancel_indx > 0
      <==> old(stash.cancel_indx) > 0 || RowsCancel(ops, add, call, |call.rows|, mat.first, |mat.rows|)
    ensures stash.off_proc_i == old(stash.off_proc_i) || fresh(stash.off_proc_i)
    ensures stash.off_proc_j == old(stash.off_proc_j) || fresh(stash.off_proc_j)
    ensures stash.off_proc_data == old(stash.off_proc_data) || fresh(stash.off_proc_data)
  {
    hide RowMatrix.Valid, OffProcStash.Keeps, Fitting, ApplyOp, ApplyOps, StashRow, RowCancels;
    ghost var m, rowOps, rows := mat.Contents(), call.Ops(), |mat.rows|;
    ApplyNone(add, m, mat.first, rowOps);
    var indx := 0;
    for ii := 0 to |call.rows|
      invariant indx == Prefix(call.ncols, ii)
      invariant mat.Valid() && Separate(mat, stash) && fresh(mat.Repr - old(mat.Repr))
      invariant mat.Contents() == ApplyOps(add, m, mat.first, rowOps[..ii])
      invariant stash.Keeps(StashRows(ops, add, call, ii, mat.first, rows))
      invariant stash.cancel_indx > 0 <==> old(stash.cancel_indx) > 0 || RowsCancel(ops, add, call, ii, mat.first, rows)
      invariant stash.off_proc_i == old(stash.off_proc_i) || fresh(stash.off_proc_i)
      invariant stash.off_proc_j == old(stash.off_proc_j) || fresh(stash.off_proc_j)
      invariant stash.off_proc_data == old(stash.off_proc_data) || fresh(stash.off_proc_data)
    {
      ApplyOpsSnoc(add, m, mat.first, rowOps, ii);
      RowsFit(ops, add, call, ii + 1, |call.rows|, mat.first, rows);
      TakeRow(mat, stash, add, call, ii, indx, StashRows(ops, add, call, ii, mat.first, rows));
      indx := indx + call.ncols[ii];
    }
    assert rowOps[..|call.rows|] == rowOps;
  }

  // ------------------------------------------------------------------ one processor before the exchange

  /** A processor: its rows are first, ..., first + rows - 1, and it makes the calls qs. */
  datatype Rank = Rank(first: int, rows: nat, qs: seq<Request>)
  {
    predicate Owns(row: int) { 0 <= row - first < rows }

    /** There is room for the rows that have to be stashed. */
    ghost predicate Valid() {
      ValidRequests(qs) && Fitting(StashOf(qs, |qs|, first, rows))
    }

    /** What the processor packs: if anything was cancelled, what is left of the stash. */
    ghost function Packs(): seq<RowOp>
      requires ValidRequests(qs)
    {
      var stash := StashOf(qs, |qs|, first, rows);
      if CallsCancel(qs, |qs|, first, rows) then Compacted(stash, |stash|) else stash
    }
  }

  /** The stash after the first n calls, ... */
  ghost function StashOf(qs: seq<Request>, n: nat, first: int, rows: nat): seq<RowOp>
    requires ValidRequests(qs) && n <= |qs|
  {
    if n == 0 then []
    else StashRows(StashOf(qs, n - 1, first, rows), qs[n - 1].add, qs[n - 1].call, |qs[n - 1].call.rows|, first, rows)
  }

  /** ... and whether they cancelled anything. */
  ghost predicate CallsCancel(qs: seq<Request>, n: nat, first: int, rows: nat)
    requires ValidRequests(qs) && n <= |qs|
  {
    n > 0 && (CallsCancel(qs, n - 1, first, rows)
              || RowsCancel(StashOf(qs, n - 1, first, rows), qs[n - 1].add, qs[n - 1].call, |qs[n - 1].call.rows|,
                first, rows))
  }

  /** What a processor stashes with its first calls fits if all does. */
  lemma {:induction false} StashFits(r: Rank, k: nat, n: nat)
    requires ValidRequests(r.qs) && k <= n <= |r.qs| && Fitting(StashOf(r.qs, n, r.first, r.rows))
    ensures Fitting(StashOf(r.qs, k, r.first, r.rows))
  {
    hide Fitting, StashRows;
    if k < n {
      var q := r.qs[n - 1];
      NoRows(StashOf(r.qs, n - 1, r.first, r.rows), q.add, q.call, r.first, r.rows);
      RowsFit(StashOf(r.qs, n - 1, r.first, r.rows), q.add, q.call, 0, |q.call.rows|, r.first, r.rows);
      StashFits(r, k, n - 1);
    }
  }

  lemma NoRows(stash: seq<RowOp>, add: bool, call: Call, first: int, rows: nat)
    requires call.Valid()
    ensures StashRows(stash, add, call, 0, first, rows) == stash
  {}

  lemma NoCalls(r: Rank, m: seq<seq<Entry>>)
    requires ValidRequests(r.qs)
    ensures StashOf(r.qs, 0, r.first, r.rows) == [] && !CallsCancel(r.qs, 0, r.first, r.rows)
    ensures ApplyAll(m, r.first, History(r.qs[..0])) == m
  {}

  lemma CallNext(r: Rank, k: nat)
    requires ValidRequests(r.qs) && k < |r.qs|
    ensures var stash, q := StashOf(r.qs, k, r.first, r.rows), r.qs[k];
      && StashOf(r.qs, k + 1, r.first, r.rows) == StashRows(stash, q.add, q.call, |q.call.rows|, r.first, r.rows)
      && CallsCancel(r.qs, k + 1, r.first, r.rows)
         == (CallsCancel(r.qs, k, r.first, r.rows) || RowsCancel(stash, q.add, q.call, |q.call.rows|, r.first, r.rows))
  {}

  /** All calls of a processor. */
  method RunCalls(mat: RowMatrix, stash: OffProcStash, r: Rank)
    requires mat.Valid() && Separate(mat, stash) && stash.Keeps([]) && stash.cancel_indx == 0
    requires mat.first == r.first && |mat.rows| == r.rows && r.Valid()
    modifies mat.Repr, stash, stash.off_proc_i, stash.off_proc_j, stash.off_proc_data
    ensures mat.Valid() && Separate(mat, stash) && fresh(mat.Repr - old(mat.Repr))
    ensures mat.Contents() == ApplyAll(old(mat.Contents()), mat.first, History(r.qs))
    ensures stash.Keeps(StashOf(r.qs, |r.qs|, r.first, r.rows))
    ensures stash.cancel_indx > 0 <==> CallsCancel(r.qs, |r.qs|, r.first, r.rows)
    ensures stash.off_proc_i == old(stash.off_proc_i) || fresh(stash.off_proc_i)
    ensures stash.off_proc_j == old(stash.off_proc_j) || fresh(stash.off_proc_j)
    ensures stash.off_proc_data == old(stash.off_proc_data) || fresh(stash.off_proc_data)
  {
    hide RowMatrix.Valid, OffProcStash.Keeps, Fitting, ApplyOps, ApplyAll, Changes, History, StashRows, RowsCancel,
      StashOf, CallsCancel;
    ghost var m := mat.Contents();
    NoCalls(r, m);
    for k := 0 to |r.qs|
      invariant mat.Valid() && Separate(mat, stash) && fresh(mat.Repr - old(mat.Repr))
      invariant mat.Contents() == ApplyAll(m, mat.first, History(r.qs[..k]))
      invariant stash.Keeps(StashOf(r.qs, k, r.first, r.rows))
      invariant stash.cancel_indx > 0 <==> CallsCancel(r.qs, k, r.first, r.rows)
      invariant stash.off_proc_i == old(stash.off_proc_i) || fresh(stash.off_proc_i)
      invariant stash.off_proc_j == old(stash.off_proc_j) || fresh(stash.off_proc_j)
      invariant stash.off_proc_data == old(stash.off_proc_data) || fresh(stash.off_proc_data)
    {
      HistoryNext(r.qs, k);
      CallIsChanges(m, mat.first, History(r.qs[..k]), r.qs[k].add, r.qs[k].call.Ops());
      StashFits(r, k + 1, |r.qs|);
      CallNext(r, k);
      TakeCall(mat, stash, r.qs[k].add, r.qs[k].call, StashOf(r.qs, k, r.first, r.rows));
    }
    assert r.qs[..|r.qs|] == r.qs;
  }

  /** A processor's calls, from empty rows, and the message buffer it then packs. */
  method RunAndPack(r: Rank, row_space: seq<nat>, owner: int -> int) returns (mat: RowMatrix, mail: Mail)
    requires r.Valid() && |row_space| == r.rows && Monotone(owner)
    ensures mat.Valid() && fresh(mat.Repr) && mat.first == r.first && |mat.rows| == r.rows
    ensures mat.Contents() == ApplyAll(Empty(r.rows), r.first, History(r.qs))
    ensures Mailed(mail.buf, mail.starts, r.Packs(), owner, mail.procs)
  {
    hide RowMatrix.Valid, OffProcStash.Keeps, ApplyAll, History, StashOf, CallsCancel, Mailed, Monotone, Fitting,
      Compacted;
    mat := new RowMatrix(r.first, row_space);
    assert mat.Contents() == Empty(r.rows);
    var stash := NewStash(mat);
    RunCalls(mat, stash, r);
    mail := PackStash(stash, StashOf(r.qs, |r.qs|, r.first, r.rows), owner);
  }

  lemma KeepsMeans(stash: OffProcStash, ops: seq<RowOp>)
    requires stash.Keeps(ops)
    ensures stash.Valid() && stash.Holds(ops)
  {}

  method NewStash(ghost mat: RowMatrix) returns (stash: OffProcStash)
    requires mat.Valid()
    ensures stash.Keeps([]) && stash.cancel_indx == 0 && Separate(mat, stash)
    ensures fresh(stash) && fresh(stash.off_proc_i) && fresh(stash.off_proc_j) && fresh(stash.off_proc_data)
  {
    stash := new OffProcStash();
  }

  /** Assembly starts with the stash: it is compacted if anything was cancelled, and packed. */
  method PackStash(stash: OffProcStash, ghost ops: seq<RowOp>, owner: int -> int) returns (mail: Mail)
    requires stash.Keeps(ops) && Monotone(owner)
    modifies stash, stash.off_proc_i, stash.off_proc_j, stash.off_proc_data
    ensures Mailed(mail.buf, mail.starts, if old(stash.cancel_indx) > 0 then Compacted(ops, |ops|) else ops, owner,
                   mail.procs)
  {
    hide *;
    KeepsMeans(stash, ops);
    ghost var left := if stash.cancel_indx != 0 then Compacted(ops, |ops|) else ops;
    Compact(stash, ops);
    var call := AsCall(stash, left);
    var procs, buf, starts := Pack(call, owner);
    mail := Mail(procs, buf[..], starts);
  }

  function Empty(n: nat): (m: seq<seq<Entry>>)
    ensures |m| == n && forall r :: 0 <= r < n ==> m[r] == []
  {
    seq(n, _ => [])
  }
}
