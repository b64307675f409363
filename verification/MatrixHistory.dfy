module MatrixHistory {
  // Setting, adding, assembling and reading back.

  import opened SparseRows
  import opened AuxMatrix
  import opened MatrixValues
  import opened Histories

  /** The row updates of a call of the setters. */
  ghost function Changes(add: bool, ops: seq<RowOp>): (h: seq<Change>)
    ensures |h| == |ops|
  {
    seq(|ops|, i requires 0 <= i < |ops| => Change(add, ops[i]))
  }

  lemma ChangesNext(h: seq<Change>, add: bool, ops: seq<RowOp>, op: RowOp)
    ensures h + Changes(add, ops + [op]) == h + Changes(add, ops) + [Change(add, op)]
  {}

  lemma {:induction false} CallIsChanges(m: seq<seq<Entry>>, first: int, h: seq<Change>, add: bool, ops: seq<RowOp>)
    ensures ApplyAll(m, first, h + Changes(add, ops)) == ApplyOps(add, ApplyAll(m, first, h), first, ops)
  {
    hide ApplyOp, Changes;
    if |ops| == 0 {
      assert h + Changes(add, ops) == h;
    } else {
      var before, op := ops[..|ops| - 1], ops[|ops| - 1];
      CallIsChanges(m, first, h, add, before);
      assert ops == before + [op];
      ChangesNext(h, add, before, op);
      ApplyAllNext(m, first, h + Changes(add, before), Change(add, op));
    }
  }

  /** A call of one of the two setters. */
  datatype Request = Request(add: bool, call: Call)

  ghost predicate ValidRequests(qs: seq<Request>) { forall k :: 0 <= k < |qs| ==> qs[k].call.Valid() }

  /** All row updates of a list of calls, in order. */
  ghost function History(qs: seq<Request>): seq<Change>
    requires ValidRequests(qs)
  {
    if qs == [] then [] else History(qs[..|qs| - 1]) + Changes(qs[|qs| - 1].add, qs[|qs| - 1].call.Ops())
  }

  lemma HistoryNext(qs: seq<Request>, k: nat)
    requires ValidRequests(qs) && k < |qs|
    ensures History(qs[..k + 1]) == History(qs[..k]) + Changes(qs[k].add, qs[k].call.Ops())
  {
    assert qs[..k + 1][..k] == qs[..k];
  }

  method RunAll(mat: RowMatrix, qs: seq<Request>)
    requires mat.Valid() && ValidRequests(qs)
    modifies mat.Repr
    ensures mat.Valid() && fresh(mat.Repr - old(mat.Repr))
    ensures mat.Contents() == ApplyAll(old(mat.Contents()), mat.first, History(qs))
  {
    ghost var m := mat.Contents();
    for k := 0 to |qs|
      invariant mat.Valid() && fresh(mat.Repr - old(mat.Repr))
      invariant mat.Contents() == ApplyAll(m, mat.first, History(qs[..k]))
    {
      HistoryNext(qs, k);
      CallIsChanges(m, mat.first, History(qs[..k]), qs[k].add, qs[k].call.Ops());
      mat.SetValues(qs[k].add, qs[k].call);
    }
    assert qs[..|qs|] == qs;
  }

  // ------------------------------------------------------------------ from the first call to a query

  /** Rows m hold, entry by entry, what a history leaves on empty rows. */
  ghost predicate Replayed(m: seq<seq<Entry>>, first_row: int, h: seq<Change>) {
    forall r: nat, c :: r < |m| ==> Vals(m[r], c) == ValuesAfter([], h, first_row + r, c)
  }

  /** Setting, adding and assembling, from empty rows. */
  method Build(first_row: int, row_space: seq<nat>, col_0: int, col_n: int, base: int, num_threads: nat,
               qs: seq<Request>)
    returns (par: ParCsr, ghost m: seq<seq<Entry>>)
    requires num_threads >= 1 && ValidRequests(qs)
    ensures par.Holds(m) && par.first_row == first_row && |m| == |row_space|
    ensures par.first_col + par.first == col_0 && par.last_col + par.first == col_n
    ensures fresh(par.diag.data) && fresh(par.offd.data) && Replayed(m, first_row, History(qs))
  {
    hide ApplyAll, History, Replayed, RowMatrix.Valid, ParCsr.Holds, ValidRequests;
    var mat := new RowMatrix(first_row, row_space);
    ghost var m0 := mat.Contents();
    RunAll(mat, qs);
    m := mat.Contents();
    AfterEmpty(m0, first_row, History(qs));
    par := Assemble(mat, col_0, col_n, base, num_threads);
  }

  lemma AfterEmpty(m0: seq<seq<Entry>>, first: int, h: seq<Change>)
    requires forall r :: 0 <= r < |m0| ==> m0[r] == []
    ensures Replayed(ApplyAll(m0, first, h), first, h)
  {
    var m := ApplyAll(m0, first, h);
    forall r: nat, c | r < |m| ensures Vals(m[r], c) == ValuesAfter([], h, first + r, c) {
      HistoryValues(m0, first, h, r, c);
    }
  }

  /** The k-th of the places the program fills for row jj holds what the calls left in the entry of that row
      and of the column at that place (the row's own k-th column only if the query is aligned, QueryAligned);
      and that is the fold of the calls where it can be. */
  ghost predicate Reads(values: seq<real>, h: seq<Change>, q: Query, jj: nat, k: nat)
    requires q.Valid() && jj < |q.rows|
  {
    var at := q.Start(jj) + k;
    q.OwnsRow(jj) && k < q.ncols[jj] ==>
      at < |values| && at < |q.cols| && IsStored(values[at], h, q, q.rows[jj], q.cols[at])
  }

  ghost predicate AllReads(values: seq<real>, h: seq<Change>, q: Query)
    requires q.Valid()
  {
    forall jj: nat, k: nat :: jj < |q.rows| ==> Reads(values, h, q, jj, k)
  }

  /** The value is what the history leaves in the entry: 0 where no call names it, else the value its row buffer
      holds for it, of several the first, or on the row's diagonal the last. */
  ghost predicate IsStored(v: real, h: seq<Change>, q: Query, row: int, col: int) {
    var xs, diagonal := ValuesAfter([], h, row, col), OnDiagonal(row - q.first_row, q.col_0, q.col_n, col);
    && (|xs| == 0 ==> v == 0.0)
    && (|xs| > 0 && diagonal ==> v == xs[|xs| - 1])
    && (|xs| > 0 && !diagonal ==> v == xs[0])
    && Leaves(v, Effects(h, row, col), diagonal)
  }

  lemma ReplayedAt(m: seq<seq<Entry>>, first_row: int, h: seq<Change>, r: nat, c: int)
    requires Replayed(m, first_row, h) && r < |m|
    ensures Vals(m[r], c) == ValuesAfter([], h, first_row + r, c)
  {}

  lemma StoredIs(m: seq<seq<Entry>>, h: seq<Change>, q: Query, row: int, col: int)
    requires Replayed(m, q.first_row, h) && 0 <= row - q.first_row < |m|
    ensures IsStored(Answer(m[row - q.first_row], row - q.first_row, q.col_0, q.col_n, col), h, q, row, col)
  {
    hide Answer, Leaves, ValuesAfter, Effects, Vals, Replayed;
    var r := row - q.first_row;
    ReplayedAt(m, q.first_row, h, r, col);
    AnswerIs(m[r], r, q.col_0, q.col_n, col);
    var diagonal := OnDiagonal(r, q.col_0, q.col_n, col);
    StoredLeaves(Stored(h, row, col, diagonal), h, row, col, diagonal);
  }

  /** End to end, on the rows a processor owns: starting with empty rows, any sequence of calls of the
      setters, then assembly on any number of threads, then a query.  Every entry asked for is what the calls
      left there: their in-order fold (0 if there were none) wherever the values do not decide whether it is. */
  method SetAssembleGet(first_row: int, row_space: seq<nat>, col_0: int, col_n: int, base: int, num_threads: nat,
                        qs: seq<Request>, ncols: seq<nat>, rows: seq<int>, cols: seq<int>, values: array<real>)
    requires num_threads >= 1 && ValidRequests(qs)
    requires |ncols| == |rows| && Prefix(ncols, |ncols|) <= |cols| == values.Length
    modifies values
    ensures AllReads(values[..], History(qs), Query(first_row, |row_space|, col_0, col_n, ncols, rows, cols))
  {
    hide AllReads, Replayed, ParCsr.Holds, Prefix;
    var par, m := Build(first_row, row_space, col_0, col_n, base, num_threads, qs);
    GetValues(par, ncols, rows, cols, values, m);
    AllRead(m, History(qs), QueryOf(par, m, ncols, rows, cols), values[..]);
  }

  lemma AllRead(m: seq<seq<Entry>>, h: seq<Change>, q: Query, values: seq<real>)
    requires q.Valid() && q.rows_here == |m| && AnsweredUpTo(m, q, values, |q.rows|) && Replayed(m, q.first_row, h)
    ensures AllReads(values, h, q)
  {
    forall jj: nat, k: nat | jj < |q.rows| ensures Reads(values, h, q, jj, k) {
      OneRead(m, h, q, values, jj, k);
    }
  }

  lemma OneRead(m: seq<seq<Entry>>, h: seq<Change>, q: Query, values: seq<real>, jj: nat, k: nat)
    requires q.Valid() && q.rows_here == |m| && AnsweredUpTo(m, q, values, |q.rows|) && Replayed(m, q.first_row, h)
    requires jj < |q.rows|
    ensures Reads(values, h, q, jj, k)
  {
    hide AnsweredUpTo, Replayed, IsStored, Answer, Vals;
    if q.OwnsRow(jj) && k < q.ncols[jj] {
      AnsweredMeans(m, q, values, |q.rows|, jj, k);
      var at := q.Start(jj) + k;
      AnswerIs(m[q.rows[jj] - q.first_row], q.rows[jj] - q.first_row, q.col_0, q.col_n, q.cols[at]);
      StoredIs(m, h, q, q.rows[jj], q.cols[at]);
    }
  }
}
