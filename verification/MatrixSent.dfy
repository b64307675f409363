module MatrixSent {
  // What a processor's calls come to, for an entry of another processor, by the time it sends: what it added, without
  // what it cancelled by setting.

  import opened SparseRows
  import opened AuxMatrix
  import opened OffProcStashes
  import opened MatrixValues
  import opened Histories
  import opened MatrixHistory
  import opened MatrixRanks

  /** What row updates, all set or all added, do to one entry. */
  ghost function EffectsOf(add: bool, ops: seq<RowOp>, row: int, col: int): seq<Effect> {
    Effects(Changes(add, ops), row, col)
  }

  lemma NoEffects(add: bool, row: int, col: int)
    ensures EffectsOf(add, [], row, col) == [] && Effects([], row, col) == []
  {}

  lemma EffectsOfNext(add: bool, ops: seq<RowOp>, op: RowOp, row: int, col: int)
    ensures EffectsOf(add, ops + [op], row, col) == EffectsOf(add, ops, row, col) + EffectOf(Change(add, op), row, col)
  {
    assert Changes(add, ops + [op]) == Changes(add, ops) + [Change(add, op)];
    EffectsNext(Changes(add, ops), Change(add, op), row, col);
  }

  lemma EffectsOfConcat(add: bool, a: seq<RowOp>, b: seq<RowOp>, row: int, col: int)
    ensures EffectsOf(add, a + b, row, col) == EffectsOf(add, a, row, col) + EffectsOf(add, b, row, col)
  {
    assert Changes(add, a + b) == Changes(add, a) + Changes(add, b);
    EffectsConcat(Changes(add, a), Changes(add, b), row, col);
  }

  // ------------------------------------------------------------------ what cancelling does

  lemma {:induction false} CancelVals(us: seq<Entry>, cs: seq<int>, c: int)
    requires c != -1
    ensures Vals(CancelEntries(us, cs), c) == if c in cs then [] else Vals(us, c)
  {
    if |us| > 0 {
      CancelVals(us[1..], cs, c);
      var e := CancelEntries(us, cs)[0];
      assert CancelEntries(us, cs) == [e] + CancelEntries(us[1..], cs) && us == [us[0]] + us[1..];
      hide Vals;
      ValsCons(e, CancelEntries(us[1..], cs), c);
      ValsCons(us[0], us[1..], c);
    }
  }

  lemma CancelledEffect(op: RowOp, row0: int, cs: seq<int>, row: int, col: int)
    requires col != -1
    ensures EffectOf(Change(true, CancelOp(op, row0, cs)), row, col)
      == if row == row0 && col in cs then [] else EffectOf(Change(true, op), row, col)
  {
    CancelVals(op.us, cs, col);
  }

  lemma {:induction false} CancelledEffects(ops: seq<RowOp>, row0: int, cs: seq<int>, row: int, col: int)
    requires col != -1
    ensures EffectsOf(true, Cancelled(ops, row0, cs), row, col)
      == if row == row0 && col in cs then [] else EffectsOf(true, ops, row, col)
  {
    hide EffectsOf, EffectOf, CancelOp;
    if |ops| == 0 {
      NoEffects(true, row, col);
      assert Cancelled(ops, row0, cs) == [] && ops == [];
    } else {
      var before, op := ops[..|ops| - 1], ops[|ops| - 1];
      CancelledEffects(before, row0, cs, row, col);
      assert ops == before + [op] && Cancelled(ops, row0, cs) == Cancelled(before, row0, cs) + [CancelOp(op, row0, cs)];
      EffectsOfNext(true, before, op, row, col);
      EffectsOfNext(true, Cancelled(before, row0, cs), CancelOp(op, row0, cs), row, col);
      CancelledEffect(op, row0, cs, row, col);
    }
  }

  lemma {:induction false} LiveVals(us: seq<Entry>, n: nat, c: int)
    requires n <= |us| && c != -1
    ensures Vals(Live(us, n), c) == Vals(us[..n], c)
  {
    hide Vals, Live;
    if n == 0 {
      NoneLive(us);
      NoVals(us, c);
    } else {
      LiveVals(us, n - 1, c);
      LiveLast(us, n);
      var before, x := Live(us, n - 1), us[n - 1];
      ValsSnoc(us, n - 1, c);
      ValsConcat(before, [x], c);
      ValsOne(x, c);
      assert Vals(before, c) + [] == Vals(before, c) && before + [] == before;
    }
  }

  lemma KeptEffects(before: seq<RowOp>, op: RowOp, row: int, col: int)
    requires col != -1
    ensures EffectsOf(true, before + Kept(op.row, Live(op.us, |op.us|)), row, col)
      == EffectsOf(true, before, row, col) + EffectOf(Change(true, op), row, col)
  {
    hide EffectsOf, Live;
    var live := Live(op.us, |op.us|);
    LiveVals(op.us, |op.us|, col);
    assert op.us[..|op.us|] == op.us;
    EffectsOfNext(true, before, RowOp(op.row, live), row, col);
    if live == [] {
      var es := EffectsOf(true, before, row, col);
      assert es + [] == es && before + [] == before;
    }
  }

  /** Removing what is cancelled changes nothing about the rest. */
  lemma {:induction false} CompactedEffects(ops: seq<RowOp>, n: nat, row: int, col: int)
    requires n <= |ops| && col != -1
    ensures EffectsOf(true, Compacted(ops, n), row, col) == EffectsOf(true, ops[..n], row, col)
  {
    hide EffectsOf, EffectOf, Kept, Live;
    if n > 0 {
      CompactedEffects(ops, n - 1, row, col);
      KeptEffects(Compacted(ops, n - 1), ops[n - 1], row, col);
      EffectsOfNext(true, ops[..n - 1], ops[n - 1], row, col);
      assert ops[..n] == ops[..n - 1] + [ops[n - 1]];
    } else {
      assert ops[..0] == [];
    }
  }

  // ------------------------------------------------------------------ what a processor sends

  /** The columns in which row ii of a Set cancels: as documented its own, in the program the first of the call. */
  ghost function ColsToCancel(call: Call, ii: nat, documented: bool): seq<int>
    requires call.Valid() && ii < |call.rows|
  {
    if documented then Cols(call.Op(ii).us) else CancelCols(call, ii)
  }

  /** What is to be sent for an entry, after row ii of a call: an addition to it comes last; a Set erases all that was
      to be sent, for only the owner can set it. */
  ghost function SentRow(es: seq<Effect>, add: bool, call: Call, ii: nat, first: int, rows: nat, documented: bool,
                         row: int, col: int): seq<Effect>
    requires call.Valid() && ii < |call.rows|
  {
    if !IsForeign(call, ii, first, rows) || call.rows[ii] != row then es
    else if add then es + EffectOf(Change(true, call.Op(ii)), row, col)
    else if col in ColsToCancel(call, ii, documented) then [] else es
  }

  ghost function SentRows(es: seq<Effect>, add: bool, call: Call, n: nat, first: int, rows: nat, documented: bool,
                          row: int, col: int): seq<Effect>
    requires call.Valid() && n <= |call.rows|
  {
    if n == 0 then es
    else SentRow(SentRows(es, add, call, n - 1, first, rows, documented, row, col), add, call, n - 1, first, rows,
                 documented, row, col)
  }

  /** ... and after the first n calls. */
  ghost function SentOf(qs: seq<Request>, n: nat, first: int, rows: nat, documented: bool, row: int, col: int)
    : seq<Effect>
    requires ValidRequests(qs) && n <= |qs|
  {
    if n == 0 then []
    else SentRows(SentOf(qs, n - 1, first, rows, documented, row, col), qs[n - 1].add, qs[n - 1].call,
                  |qs[n - 1].call.rows|, first, rows, documented, row, col)
  }

  lemma RowSent(stash: seq<RowOp>, add: bool, call: Call, ii: nat, first: int, rows: nat, row: int, col: int)
    requires call.Valid() && ii < |call.rows| && col != -1
    ensures EffectsOf(true, StashRow(stash, add, call, ii, first, rows), row, col)
      == SentRow(EffectsOf(true, stash, row, col), add, call, ii, first, rows, false, row, col)
  {
    hide EffectsOf, Cancelled;
    if IsForeign(call, ii, first, rows) {
      if add {
        EffectsOfNext(true, stash, call.Op(ii), row, col);
        var es := EffectsOf(true, stash, row, col);
        assert es + [] == es;
      } else {
        CancelledEffects(stash, call.rows[ii], CancelCols(call, ii), row, col);
      }
    }
  }

  lemma {:induction false} RowsSent(stash: seq<RowOp>, add: bool, call: Call, n: nat, first: int, rows: nat, row: int,
                                    col: int)
    requires call.Valid() && n <= |call.rows| && col != -1
    ensures EffectsOf(true, StashRows(stash, add, call, n, first, rows), row, col)
      == SentRows(EffectsOf(true, stash, row, col), add, call, n, first, rows, false, row, col)
  {
    hide EffectsOf, StashRow, SentRow;
    if n > 0 {
      RowsSent(stash, add, call, n - 1, first, rows, row, col);
      RowSent(StashRows(stash, add, call, n - 1, first, rows), add, call, n - 1, first, rows, row, col);
    }
  }

  lemma {:induction false} StashSent(r: Rank, n: nat, row: int, col: int)
    requires ValidRequests(r.qs) && n <= |r.qs| && col != -1
    ensures EffectsOf(true, StashOf(r.qs, n, r.first, r.rows), row, col)
      == SentOf(r.qs, n, r.first, r.rows, false, row, col)
  {
    hide EffectsOf, StashRows, SentRows;
    if n == 0 {
      NoEffects(true, row, col);
    } else {
      var q := r.qs[n - 1];
      StashSent(r, n - 1, row, col);
      RowsSent(StashOf(r.qs, n - 1, r.first, r.rows), q.add, q.call, |q.call.rows|, r.first, r.rows, row, col);
    }
  }

  /** What a processor packs does to an entry exactly what its calls left to be sent for it. */
  lemma PacksSent(r: Rank, row: int, col: int)
    requires ValidRequests(r.qs) && col != -1
    ensures EffectsOf(true, r.Packs(), row, col) == SentOf(r.qs, |r.qs|, r.first, r.rows, false, row, col)
  {
    hide EffectsOf, StashOf, CallsCancel, SentOf, Compacted;
    var stash := StashOf(r.qs, |r.qs|, r.first, r.rows);
    StashSent(r, |r.qs|, row, col);
    CompactedEffects(stash, |stash|, row, col);
    assert stash[..|stash|] == stash;
  }

  /** Nothing is sent for entries of one's own. */
  lemma {:induction false} OwnRowsNotSent(add: bool, call: Call, n: nat, first: int, rows: nat, row: int, col: int)
    requires call.Valid() && n <= |call.rows| && 0 <= row - first < rows
    ensures SentRows([], add, call, n, first, rows, false, row, col) == []
  {
    if n > 0 { OwnRowsNotSent(add, call, n - 1, first, rows, row, col); }
  }

  lemma {:induction false} OwnNotSent(r: Rank, n: nat, row: int, col: int)
    requires ValidRequests(r.qs) && n <= |r.qs| && r.Owns(row)
    ensures SentOf(r.qs, n, r.first, r.rows, false, row, col) == []
  {
    hide SentRows;
    if n > 0 {
      OwnNotSent(r, n - 1, row, col);
      OwnRowsNotSent(r.qs[n - 1].add, r.qs[n - 1].call, |r.qs[n - 1].call.rows|, r.first, r.rows, row, col);
    }
  }

  // ------------------------------------------------------------------ as documented?

  /** Row ii of a Set cancels in its own columns: they are the first columns of the whole call. */
  ghost predicate CancelsOwn(call: Call, ii: nat)
    requires call.Valid() && ii < |call.rows|
  {
    forall c :: c != -1 ==> (c in CancelCols(call, ii) <==> c in Cols(call.Op(ii).us))
  }

  /** HYPRE_IJ_mv.h promises that setting entries of another processor erases what is stashed for those entries.  The
      program does so, whatever the stash holds, if and only if the row's columns are the first of the call. */
  lemma CancelExact(call: Call, ii: nat)
    requires call.Valid() && ii < |call.rows|
    ensures (forall stash :: Cancelled(stash, call.rows[ii], CancelCols(call, ii))
                          == Cancelled(stash, call.rows[ii], Cols(call.Op(ii).us)))
      <==> CancelsOwn(call, ii)
  {
    var row, cs, own := call.rows[ii], CancelCols(call, ii), Cols(call.Op(ii).us);
    if CancelsOwn(call, ii) {
      forall stash ensures Cancelled(stash, row, cs) == Cancelled(stash, row, own) {
        SameCancelled(stash, row, cs, own);
      }
    } else {
      var c :| c != -1 && (c in cs) != (c in own);
      Differ(row, c, cs, own);
    }
  }

  lemma SameCancelled(stash: seq<RowOp>, row: int, cs: seq<int>, own: seq<int>)
    requires forall c :: c != -1 ==> (c in cs <==> c in own)
    ensures Cancelled(stash, row, cs) == Cancelled(stash, row, own)
  {
    forall k | 0 <= k < |stash| ensures CancelOp(stash[k], row, cs) == CancelOp(stash[k], row, own) {
      assert CancelEntries(stash[k].us, cs) == CancelEntries(stash[k].us, own);
    }
  }

  /** One stashed entry in a column that is in one list only tells the two apart. */
  lemma Differ(row: int, c: int, cs: seq<int>, own: seq<int>)
    requires c != -1 && (c in cs) != (c in own)
    ensures Cancelled([RowOp(row, [Entry(c, 1.0)])], row, cs) != Cancelled([RowOp(row, [Entry(c, 1.0)])], row, own)
  {
    var op := RowOp(row, [Entry(c, 1.0)]);
    assert Cancelled([op], row, cs)[0].us[0] == CancelEntries(op.us, cs)[0];
    assert Cancelled([op], row, own)[0].us[0] == CancelEntries(op.us, own)[0];
  }

  /** The first row of a call that has columns always does. */
  lemma FirstRowCancelsOwn(call: Call, ii: nat)
    requires call.Valid() && ii < |call.rows| && Prefix(call.ncols, ii) == 0
    ensures CancelsOwn(call, ii)
  {
    PrefixMonotone(call.ncols, ii + 1, |call.ncols|);
    assert Cols(call.Op(ii).us) == CancelCols(call, ii);
  }

  /** A later row may not: setting rows 7 and 8 in the columns 3 and 4 leaves what is stashed for (8, 4). */
  lemma LaterRowDoesNot()
    ensures var call := Call([1, 1], [7, 8], [3, 4], [0.0, 0.0]);
      call.Valid() && !CancelsOwn(call, 1)
      && Cancelled([RowOp(8, [Entry(4, 1.0)])], 8, CancelCols(call, 1)) == [RowOp(8, [Entry(4, 1.0)])]
  {
    var call := Call([1, 1], [7, 8], [3, 4], [0.0, 0.0]);
    assert Prefix(call.ncols, 0) == 0 && Prefix(call.ncols, 1) == 1 && Prefix(call.ncols, 2) == 2;
    assert CancelCols(call, 1) == [3];
    var own := Cols(call.Op(1).us);
    assert own[0] == 4 && 4 in own && 4 !in [3];
    var op := RowOp(8, [Entry(4, 1.0)]);
    assert CancelEntries(op.us, [3]) == op.us;
  }

  /** Every Set of the calls cancels in its own columns. */
  ghost predicate AsDocumented(r: Rank)
    requires ValidRequests(r.qs)
  {
    forall k, ii ::
      0 <= k < |r.qs| && 0 <= ii < |r.qs[k].call.rows| && IsForeign(r.qs[k].call, ii, r.first, r.rows) ==>
        r.qs[k].add || CancelsOwn(r.qs[k].call, ii)
  }

  lemma {:induction false} RowsAsDocumented(es: seq<Effect>, r: Rank, k: nat, n: nat, row: int, col: int)
    requires ValidRequests(r.qs) && AsDocumented(r) && k < |r.qs| && n <= |r.qs[k].call.rows| && col != -1
    ensures SentRows(es, r.qs[k].add, r.qs[k].call, n, r.first, r.rows, false, row, col)
      == SentRows(es, r.qs[k].add, r.qs[k].call, n, r.first, r.rows, true, row, col)
  {
    if n > 0 { RowsAsDocumented(es, r, k, n - 1, row, col); }
  }

  /** Then what is sent is what the documentation says. */
  lemma {:induction false} SentAsDocumented(r: Rank, n: nat, row: int, col: int)
    requires ValidRequests(r.qs) && AsDocumented(r) && n <= |r.qs| && col != -1
    ensures SentOf(r.qs, n, r.first, r.rows, false, row, col) == SentOf(r.qs, n, r.first, r.rows, true, row, col)
  {
    hide SentRows, AsDocumented;
    if n > 0 {
      SentAsDocumented(r, n - 1, row, col);
      RowsAsDocumented(SentOf(r.qs, n - 1, r.first, r.rows, false, row, col), r, n - 1, |r.qs[n - 1].call.rows|, row,
        col);
    }
  }
}
