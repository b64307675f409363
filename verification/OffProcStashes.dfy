/** The stash of rows of other processors, and its compaction at the start of hypre_IJMatrixAssembleParCSR:
    off_proc_i holds a row number and a length for each row, off_proc_j and off_proc_data hold the rows'
    columns and values one row after the other; column -1 marks a cancelled entry. */
module OffProcStashes {
  import opened Basics
  import opened SparseRows
  import opened AuxMatrix

  /** The entries of a row that are not cancelled, among the first n. */
  function Live(us: seq<Entry>, n: nat): (r: seq<Entry>)
    requires n <= |us|
    ensures |r| <= n
  {
    if n == 0 then [] else Live(us, n - 1) + (if us[n - 1].col != -1 then [us[n - 1]] else [])
  }

  /** The first n rows without cancelled entries, and without the rows that have no entries (left). */
  function Compacted(ops: seq<RowOp>, n: nat): (r: seq<RowOp>)
    requires n <= |ops|
    ensures |r| <= n
  {
    if n == 0 then []
    else Compacted(ops, n - 1) + Kept(ops[n - 1].row, Live(ops[n - 1].us, |ops[n - 1].us|))
  }

  function Kept(row: int, us: seq<Entry>): (r: seq<RowOp>)
    ensures |r| <= 1
  {
    if us == [] then [] else [RowOp(row, us)]
  }

  /** Row numbers and lengths of the first n rows, as in off_proc_i. */
  function Heads(ops: seq<RowOp>, n: nat): (r: seq<int>)
    requires n <= |ops|
    ensures |r| == 2 * n
  {
    if n == 0 then [] else Heads(ops, n - 1) + [ops[n - 1].row, |ops[n - 1].us|]
  }

  /** The entries of the first n rows, one row after the other, as in off_proc_j and off_proc_data. */
  function Entries(ops: seq<RowOp>, n: nat): seq<Entry>
    requires n <= |ops|
  {
    if n == 0 then [] else Entries(ops, n - 1) + ops[n - 1].us
  }

  lemma {:induction false} HeadsAt(ops: seq<RowOp>, n: nat, k: nat)
    requires k < n <= |ops|
    ensures Heads(ops, n)[2 * k] == ops[k].row && Heads(ops, n)[2 * k + 1] == |ops[k].us|
  {
    if k < n - 1 { HeadsAt(ops, n - 1, k); }
  }

  lemma {:induction false} EntriesAt(ops: seq<RowOp>, n: nat, k: nat, j: nat)
    requires k < n <= |ops| && j < |ops[k].us|
    ensures |Entries(ops, k)| + j < |Entries(ops, n)| && Entries(ops, n)[|Entries(ops, k)| + j] == ops[k].us[j]
  {
    if k < n - 1 { EntriesAt(ops, n - 1, k, j); }
  }

  lemma {:induction false} EntriesGrow(ops: seq<RowOp>, k: nat, n: nat)
    requires k <= n <= |ops|
    ensures |Entries(ops, k)| <= |Entries(ops, n)|
  {
    if k < n { EntriesGrow(ops, k, n - 1); }
  }

  lemma {:induction false} PrefixSame(a: seq<RowOp>, b: seq<RowOp>, n: nat)
    requires n <= |a| && n <= |b| && forall k :: 0 <= k < n ==> a[k] == b[k]
    ensures Heads(a, n) == Heads(b, n) && Entries(a, n) == Entries(b, n)
  {
    if n > 0 { PrefixSame(a, b, n - 1); }
  }

  /** One more row in the compacted stash. */
  lemma KeptNext(out: seq<RowOp>, row: int, us: seq<Entry>, r: seq<RowOp>)
    requires r == out + Kept(row, us)
    ensures Heads(r, |r|) == Heads(out, |out|) + (if us == [] then [] else [row, |us|])
    ensures Entries(r, |r|) == Entries(out, |out|) + us
  {
    if us == [] {
      assert r == out;
    } else {
      PrefixSame(out, r, |out|);
    }
  }

  /** The two parallel arrays hold es from the start. */
  ghost predicate Begins(j: seq<int>, data: seq<real>, es: seq<Entry>, n: nat) {
    n <= |es| && n <= |j| && n <= |data| && forall p :: 0 <= p < n ==> Entry(j[p], data[p]) == es[p]
  }

  // ------------------------------------------------------------------ room

  /** max_off_proc_elmts when a row of n elements is stashed after `elmts` elements: there is room for that many
      elements, and for as many row numbers.  It grows only for the elements. */
  function Room(max: nat, elmts: nat, n: nat): nat {
    if max == 0 then (if n > 1000 then n else 1000) else if elmts + n > max then max + 3 * n else max
  }

  function RoomAfter(ops: seq<RowOp>, k: nat): nat
    requires k <= |ops|
  {
    if k == 0 then 0 else Room(RoomAfter(ops, k - 1), |Entries(ops, k - 1)|, |ops[k - 1].us|)
  }

  /** Stashing the first n rows one by one, each row number is written within off_proc_i. */
  ghost predicate Fits(ops: seq<RowOp>, n: nat)
    requires n <= |ops|
  {
    n == 0 || (Fits(ops, n - 1) && n <= RoomAfter(ops, n))
  }

  ghost predicate Fitting(ops: seq<RowOp>) { Fits(ops, |ops|) }

  lemma {:induction false} ElementsFit(ops: seq<RowOp>, n: nat)
    requires n <= |ops|
    ensures |Entries(ops, n)| <= RoomAfter(ops, n) && (n > 0 ==> RoomAfter(ops, n) >= 1000)
  {
    if n > 0 { ElementsFit(ops, n - 1); }
  }

  /** Whether the next row fits can be told before it is stashed: its elements make the arrays grow, or there is
      room for one more row as it is. */
  lemma FitsNext(ops: seq<RowOp>, n: nat)
    requires n < |ops| && Fits(ops, n)
    ensures var max := RoomAfter(ops, n);
      Fits(ops, n + 1) <==> max == 0 || |Entries(ops, n)| + |ops[n].us| > max || n < max
  {
    ElementsFit(ops, n);
    ElementsFit(ops, n + 1);
  }

  /** Arrays that have to grow for a row grow for three like it: two more fit without growing, and if the arrays were
      full, no third. */
  lemma GrowthLasts(max: nat, elmts: nat, n: nat)
    requires 0 < max < elmts + n && elmts <= max
    ensures var max' := Room(max, elmts, n);
      && Room(max', elmts + n, n) == max' && Room(max', elmts + 2 * n, n) == max'
      && (elmts == max ==> Room(max', elmts + 3 * n, n) > max')
  {}

  /** Up to 1000 rows always fit, and any number of rows that are not empty. */
  lemma {:induction false} EnoughRoom(ops: seq<RowOp>, n: nat)
    requires n <= |ops| && (n <= 1000 || forall k :: 0 <= k < n ==> ops[k].us != [])
    ensures Fits(ops, n)
    ensures (forall k :: 0 <= k < n ==> ops[k].us != []) ==> n <= |Entries(ops, n)|
  {
    if n > 0 {
      EnoughRoom(ops, n - 1);
      ElementsFit(ops, n);
    }
  }

  /** Rows without elements take room that is never reserved: the 1001st of them is written beyond the array. */
  lemma {:induction false} EmptyRowsFit(ops: seq<RowOp>, n: nat)
    requires n <= |ops| && forall k :: 0 <= k < n ==> ops[k].us == []
    ensures Fits(ops, n) <==> n <= 1000
    ensures Entries(ops, n) == [] && RoomAfter(ops, n) == if n == 0 then 0 else 1000
  {
    if n > 0 { EmptyRowsFit(ops, n - 1); }
  }

  lemma {:induction false} RoomSame(a: seq<RowOp>, b: seq<RowOp>, n: nat)
    requires n <= |a| && n <= |b| && forall k :: 0 <= k < n ==> a[k] == b[k]
    ensures RoomAfter(a, n) == RoomAfter(b, n) && (Fits(a, n) <==> Fits(b, n))
  {
    if n > 0 {
      RoomSame(a, b, n - 1);
      PrefixSame(a, b, n - 1);
    }
  }

  lemma {:induction false} FitsBefore(ops: seq<RowOp>, k: nat, n: nat)
    requires k <= n <= |ops| && Fits(ops, n)
    ensures Fits(ops, k)
  {
    if k < n { FitsBefore(ops, k, n - 1); }
  }

  /** What fits, fits without the last rows. */
  lemma FitsPrefix(a: seq<RowOp>, b: seq<RowOp>)
    requires Fits(a + b, |a + b|)
    ensures Fits(a, |a|)
  {
    FitsBefore(a + b, |a|, |a + b|);
    RoomSame(a + b, a, |a|);
  }

  lemma {:induction false} RoomOfLengths(a: seq<RowOp>, b: seq<RowOp>, n: nat)
    requires n <= |a| && n <= |b| && forall k :: 0 <= k < n ==> |a[k].us| == |b[k].us|
    ensures |Entries(a, n)| == |Entries(b, n)| && RoomAfter(a, n) == RoomAfter(b, n) && (Fits(a, n) <==> Fits(b, n))
  {
    if n > 0 { RoomOfLengths(a, b, n - 1); }
  }

  // ------------------------------------------------------------------ cancelling

  /** The entries with those in columns cs cancelled. */
  function CancelEntries(us: seq<Entry>, cs: seq<int>): (r: seq<Entry>)
    ensures |r| == |us|
    ensures forall p :: 0 <= p < |us| ==> r[p] == if us[p].col in cs then Entry(-1, us[p].val) else us[p]
  {
    seq(|us|, p requires 0 <= p < |us| => if us[p].col in cs then Entry(-1, us[p].val) else us[p])
  }

  function CancelOp(op: RowOp, row: int, cs: seq<int>): RowOp {
    if op.row == row then RowOp(row, CancelEntries(op.us, cs)) else op
  }

  /** The stashed rows with the entries of row `row` in columns cs cancelled. */
  function Cancelled(ops: seq<RowOp>, row: int, cs: seq<int>): (r: seq<RowOp>)
    ensures |r| == |ops| && forall k :: 0 <= k < |ops| ==> r[k] == CancelOp(ops[k], row, cs)
  {
    seq(|ops|, k requires 0 <= k < |ops| => CancelOp(ops[k], row, cs))
  }

  ghost predicate Hits(op: RowOp, row: int, cs: seq<int>) {
    op.row == row && exists p :: 0 <= p < |op.us| && op.us[p].col in cs
  }

  /** Whether there is anything to cancel among the first n rows. */
  ghost predicate AnyHits(ops: seq<RowOp>, n: nat, row: int, cs: seq<int>)
    requires n <= |ops|
  {
    n > 0 && (AnyHits(ops, n - 1, row, cs) || Hits(ops[n - 1], row, cs))
  }

  /** Changing row k, but not its number or its length. */
  lemma {:induction false} ChangedHeads(ops: seq<RowOp>, n: nat, k: nat, op: RowOp)
    requires k < |ops| && n <= |ops| && op.row == ops[k].row && |op.us| == |ops[k].us|
    ensures Heads(ops[k := op], n) == Heads(ops, n)
  {
    if n > 0 { ChangedHeads(ops, n - 1, k, op); }
  }

  lemma {:induction false} ChangedEntries(ops: seq<RowOp>, n: nat, k: nat, op: RowOp)
    requires k < n <= |ops| && |op.us| == |ops[k].us|
    ensures |Entries(ops, k)| + |op.us| <= |Entries(ops, n)|
    ensures Entries(ops[k := op], n) == Overwrite(Entries(ops, n), |Entries(ops, k)|, op.us)
  {
    hide Overwrite;
    var ops' := ops[k := op];
    if k == n - 1 {
      PrefixSame(ops, ops', k);
      OverwriteEnd(Entries(ops, k), ops[k].us, op.us);
    } else {
      ChangedEntries(ops, n - 1, k, op);
      OverwriteFront(Entries(ops, n - 1), |Entries(ops, k)|, op.us, ops[n - 1].us);
    }
  }

  lemma OverwriteEnd(a: seq<Entry>, b: seq<Entry>, c: seq<Entry>)
    requires |b| == |c|
    ensures Overwrite(a + b, |a|, c) == a + c
  {}

  lemma OverwriteFront(a: seq<Entry>, lo: nat, es: seq<Entry>, b: seq<Entry>)
    requires lo + |es| <= |a|
    ensures Overwrite(a + b, lo, es) == Overwrite(a, lo, es) + b
  {}

  /** One row that is to be cancelled in: for each of the n columns, all its entries. */
  method CancelIn(off_proc_j: array<int>, col_indx: nat, row_len: nat, cols: seq<int>, n: nat) returns (count: nat)
    requires col_indx + row_len <= off_proc_j.Length && n <= |cols|
    modifies off_proc_j
    ensures forall p :: 0 <= p < off_proc_j.Length ==>
      off_proc_j[p]
      == if col_indx <= p < col_indx + row_len && old(off_proc_j[p]) in cols[..n] then -1 else old(off_proc_j[p])
    ensures count > 0 <==> exists p :: col_indx <= p < col_indx + row_len && old(off_proc_j[p]) in cols[..n]
  {
    ghost var js := off_proc_j[..];
    count := 0;
    for j := 0 to n
      invariant forall p :: 0 <= p < |js| ==> off_proc_j[p] == AfterColumns(js, col_indx, row_len, cols[..j], p)
      invariant count > 0 <==> SomeIn(js, col_indx, row_len, cols[..j])
    {
      count := CancelColumn(off_proc_j, col_indx, row_len, cols, j, count, js);
    }
  }

  ghost function AfterColumns(js: seq<int>, lo: nat, n: nat, cs: seq<int>, p: nat): int
    requires p < |js|
  {
    if lo <= p < lo + n && js[p] in cs then -1 else js[p]
  }

  ghost predicate SomeIn(js: seq<int>, lo: nat, n: nat, cs: seq<int>) {
    exists p :: lo <= p < lo + n && p < |js| && js[p] in cs
  }

  method CancelColumn(off_proc_j: array<int>, col_indx: nat, row_len: nat, cols: seq<int>, j: nat, count0: nat,
                      ghost js: seq<int>)
    returns (count: nat)
    requires col_indx + row_len <= off_proc_j.Length == |js| && j < |cols|
    requires forall p :: 0 <= p < |js| ==> off_proc_j[p] == AfterColumns(js, col_indx, row_len, cols[..j], p)
    requires count0 > 0 <==> SomeIn(js, col_indx, row_len, cols[..j])
    modifies off_proc_j
    ensures forall p :: 0 <= p < |js| ==> off_proc_j[p] == AfterColumns(js, col_indx, row_len, cols[..j + 1], p)
    ensures count > 0 <==> SomeIn(js, col_indx, row_len, cols[..j + 1])
  {
    count := count0;
    assert cols[..j + 1] == cols[..j] + [cols[j]];
    for k := 0 to row_len
      invariant forall p :: 0 <= p < |js| ==>
        off_proc_j[p] == AfterColumns(js, col_indx, row_len, if p < col_indx + k then cols[..j + 1] else cols[..j], p)
      invariant count > 0 <==> SomeIn(js, col_indx, row_len, cols[..j]) || SomeIn(js, col_indx, k, cols[..j + 1])
    {
      if off_proc_j[col_indx + k] == cols[j] {
        off_proc_j[col_indx + k] := -1;
        count := count + 1;
      }
    }
  }

  /** hypre_TReAlloc: the first n numbers survive. */
  method CopyInts(a: array<int>, n: nat, size: nat) returns (b: array<int>)
    requires n <= a.Length && n <= size
    ensures fresh(b) && b.Length == size && forall p :: 0 <= p < n ==> b[p] == a[p]
  {
    b := new int[size];
    for k := 0 to n
      invariant forall p :: 0 <= p < k ==> b[p] == a[p]
    {
      b[k] := a[k];
    }
  }

  method CopyReals(a: array<real>, n: nat, size: nat) returns (b: array<real>)
    requires n <= a.Length && n <= size
    ensures fresh(b) && b.Length == size && forall p :: 0 <= p < n ==> b[p] == a[p]
  {
    b := new real[size];
    for k := 0 to n
      invariant forall p :: 0 <= p < k ==> b[p] == a[p]
    {
      b[k] := a[k];
    }
  }

  /** The rows ops in the stash's arrays, with `indx` row numbers and lengths and `elmts` entries. */
  ghost predicate HeldAs(i: seq<int>, j: seq<int>, data: seq<real>, indx: nat, elmts: nat, ops: seq<RowOp>) {
    && indx == 2 * |ops| <= |i| && i[..2 * |ops|] == Heads(ops, |ops|)
    && elmts == |Entries(ops, |ops|)| && Begins(j, data, Entries(ops, |ops|), elmts)
  }

  lemma CancelledIn(i: seq<int>, j: seq<int>, j': seq<int>, data: seq<real>, indx: nat, elmts: nat, ops: seq<RowOp>,
                    k: nat, at: nat, row: int, cs: seq<int>)
    requires HeldAs(i, j, data, indx, elmts, ops) && |j'| == |j| && k < |ops| && row == ops[k].row
      && at == |Entries(ops, k)|
    requires forall p :: 0 <= p < |j| ==> j'[p] == if at <= p < at + |ops[k].us| && j[p] in cs then -1 else j[p]
    requires at + |ops[k].us| <= |j|
    ensures HeldAs(i, j', data, indx, elmts, ops[k := CancelOp(ops[k], row, cs)])
    ensures (exists p :: at <= p < at + |ops[k].us| && j[p] in cs) <==> Hits(ops[k], row, cs)
  {
    var all, op := Entries(ops, |ops|), CancelOp(ops[k], row, cs);
    RowK(ops, k, Heads(ops, |ops|), all, at);
    ChangedHeads(ops, |ops|, k, op);
    ChangedEntries(ops, |ops|, k, op);
    CancelBegins(j, j', data, all, at, ops[k].us, cs);
  }

  lemma NothingYet(ops: seq<RowOp>, row: int, cs: seq<int>)
    ensures CancelledUpTo(ops, 0, row, cs) == ops && !AnyHits(ops, 0, row, cs) && Entries(ops, 0) == []
  {}

  lemma Entered(ops: seq<RowOp>, k: nat, row: int, cs: seq<int>, cur: seq<RowOp>)
    requires k < |ops| && cur == CancelledUpTo(ops, k, row, cs)
    ensures |Entries(cur, k)| == |Entries(ops, k)| && |Entries(cur, k + 1)| == |Entries(ops, k + 1)|
    ensures ops[k].row == row ==> CancelledUpTo(ops, k + 1, row, cs) == cur[k := CancelOp(ops[k], row, cs)]
    ensures ops[k].row != row ==> CancelledUpTo(ops, k + 1, row, cs) == cur && !Hits(ops[k], row, cs)
  {
    forall i | 0 <= i < |ops| ensures |cur[i].us| == |ops[i].us| {}
    hide Entries, RoomAfter, Fits, CancelEntries;
    RoomOfLengths(cur, ops, k);
    RoomOfLengths(cur, ops, k + 1);
    var next := CancelledUpTo(ops, k + 1, row, cs);
    assert forall i :: 0 <= i < |ops| && i != k ==> next[i] == cur[i];
  }

  /** The columns of one stashed row are cancelled, the values stay. */
  lemma CancelBegins(js: seq<int>, js': seq<int>, data: seq<real>, all: seq<Entry>, at: nat, us: seq<Entry>,
                     cs: seq<int>)
    requires Begins(js, data, all, |all|) && |js'| == |js| && at + |us| <= |all|
    requires forall p :: 0 <= p < |us| ==> all[at + p] == us[p]
    requires forall p :: 0 <= p < |js| ==> js'[p] == if at <= p < at + |us| && js[p] in cs then -1 else js[p]
    ensures Begins(js', data, Overwrite(all, at, CancelEntries(us, cs)), |all|)
    ensures (exists p :: at <= p < at + |us| && js[p] in cs) <==> exists p :: 0 <= p < |us| && us[p].col in cs
  {
    var r := Overwrite(all, at, CancelEntries(us, cs));
    forall p | 0 <= p < |all| ensures Entry(js'[p], data[p]) == r[p] {
      assert Entry(js[p], data[p]) == all[p];
      if at <= p < at + |us| { assert r[p] == CancelEntries(us, cs)[p - at] && all[at + (p - at)] == us[p - at]; }
    }
    if p :| at <= p < at + |us| && js[p] in cs { assert Entry(js[p], data[p]) == all[at + (p - at)] == us[p - at]; }
    if p :| 0 <= p < |us| && us[p].col in cs { assert Entry(js[at + p], data[at + p]) == all[at + p]; }
  }

  class OffProcStash {
    var off_proc_i: array<int>
    var off_proc_j: array<int>
    var off_proc_data: array<real>
    var off_proc_i_indx: nat
    var current_num_elmts: nat
    var cancel_indx: nat

    /** max_off_proc_elmts is the length of off_proc_j; off_proc_i has room for a number and a length for each row. */
    ghost predicate Valid()
      reads this
    {
      off_proc_i.Length == 2 * off_proc_j.Length && off_proc_data.Length == off_proc_j.Length
        && off_proc_i != off_proc_j
    }

    /** The arrays hold the rows ops, and the counts are right. */
    ghost predicate Holds(ops: seq<RowOp>)
      reads this, off_proc_i, off_proc_j, off_proc_data
    {
      HeldAs(off_proc_i[..], off_proc_j[..], off_proc_data[..], off_proc_i_indx, current_num_elmts, ops)
    }

    /** The arrays have grown as stashing the rows ops makes them. */
    ghost predicate Grown(ops: seq<RowOp>)
      reads this
    {
      off_proc_j.Length == RoomAfter(ops, |ops|)
    }

    ghost predicate Keeps(ops: seq<RowOp>)
      reads this, off_proc_i, off_proc_j, off_proc_data
    {
      Valid() && Holds(ops) && Grown(ops)
    }

    /** hypre_AuxParCSRMatrixCreate: no stash yet. */
    constructor ()
      ensures Valid() && Holds([]) && Grown([]) && cancel_indx == 0
      ensures fresh(off_proc_i) && fresh(off_proc_j) && fresh(off_proc_data)
    {
      off_proc_i, off_proc_j, off_proc_data := new int[0], new int[0], new real[0];
      off_proc_i_indx, current_num_elmts, cancel_indx := 0, 0, 0;
    }

    /** Room for `size` elements, keeping what is there. */
    method Realloc(size: nat, ghost ops: seq<RowOp>)
      requires Valid() && Holds(ops) && size >= off_proc_j.Length
      modifies this`off_proc_i, this`off_proc_j, this`off_proc_data
      ensures Valid() && Holds(ops) && off_proc_j.Length == size
      ensures fresh(off_proc_i) && fresh(off_proc_j) && fresh(off_proc_data)
    {
      hide Heads, Entries;
      var i := CopyInts(off_proc_i, off_proc_i_indx, 2 * size);
      var j := CopyInts(off_proc_j, current_num_elmts, size);
      var d := CopyReals(off_proc_data, current_num_elmts, size);
      assert i[..off_proc_i_indx] == off_proc_i[..off_proc_i_indx];
      off_proc_i, off_proc_j, off_proc_data := i, j, d;
    }

    /** The part of hypre_IJMatrixAddToValuesParCSR that stashes a row of another processor, which it may do
        exactly as long as the row number, too, is written within its array. */
    method AddRow(row: int, n: nat, cols: seq<int>, values: seq<real>, indx: nat, ghost ops: seq<RowOp>)
      requires Valid() && Holds(ops) && indx + n <= |cols| && indx + n <= |values|
      requires |ops| + 1 <= Room(off_proc_j.Length, current_num_elmts, n)
      modifies this, off_proc_i, off_proc_j, off_proc_data
      ensures Valid() && Holds(ops + [RowOp(row, Stretch(cols, values, indx, n))]) && cancel_indx == old(cancel_indx)
      ensures off_proc_j.Length == Room(old(off_proc_j.Length), old(current_num_elmts), n)
      ensures off_proc_i == old(off_proc_i) || fresh(off_proc_i)
      ensures off_proc_j == old(off_proc_j) || fresh(off_proc_j)
      ensures off_proc_data == old(off_proc_data) || fresh(off_proc_data)
    {
      var max_off_proc_elmts := off_proc_j.Length;
      if max_off_proc_elmts == 0 {
        Realloc(if n > 1000 then n else 1000, ops);
      } else if current_num_elmts + n > max_off_proc_elmts {
        Realloc(max_off_proc_elmts + 3 * n, ops);
      }
      WriteRow(row, n, cols, values, indx, ops);
    }

    /** What hypre_IJMatrixSetValuesParCSR does about a row of another processor: what is stashed for it is cancelled.
        The program takes the first n columns of the whole call. */
    method CancelRow(row: int, n: nat, cols: seq<int>, ghost ops: seq<RowOp>)
      requires Valid() && Holds(ops) && n <= |cols|
      modifies this`cancel_indx, off_proc_j
      ensures Valid() && Holds(Cancelled(ops, row, cols[..n]))
      ensures cancel_indx >= old(cancel_indx)
      ensures cancel_indx > old(cancel_indx) <==> AnyHits(ops, |ops|, row, cols[..n])
    {
      var col_indx: nat, rows := 0, off_proc_i_indx / 2;
      assert rows == |ops|;
      hide OffProcStash.Holds, Hits;
      NothingYet(ops, row, cols[..n]);
      for k := 0 to rows
        invariant col_indx == |Entries(ops, k)| && Holds(CancelledUpTo(ops, k, row, cols[..n]))
        invariant cancel_indx >= old(cancel_indx)
        invariant cancel_indx > old(cancel_indx) <==> AnyHits(ops, k, row, cols[..n])
      {
        col_indx := CancelNext(row, n, cols, k, col_indx, ops);
      }
      assert CancelledUpTo(ops, |ops|, row, cols[..n]) == Cancelled(ops, row, cols[..n]);
    }

    method CancelForeign(row: int, n: nat, cols: seq<int>, ghost ops: seq<RowOp>)
      requires Keeps(ops) && n <= |cols|
      modifies this`cancel_indx, off_proc_j
      ensures Keeps(Cancelled(ops, row, cols[..n]))
      ensures cancel_indx > 0 <==> old(cancel_indx) > 0 || AnyHits(ops, |ops|, row, cols[..n])
    {
      RoomOfLengths(ops, Cancelled(ops, row, cols[..n]), |ops|);
      CancelRow(row, n, cols, ops);
    }

    method CancelNext(row: int, n: nat, cols: seq<int>, k: nat, col0: nat, ghost ops: seq<RowOp>)
      returns (col_indx: nat)
      requires Valid() && n <= |cols| && k < |ops| && Holds(CancelledUpTo(ops, k, row, cols[..n]))
      requires col0 == |Entries(ops, k)|
      modifies this`cancel_indx, off_proc_j
      ensures Valid() && Holds(CancelledUpTo(ops, k + 1, row, cols[..n])) && col_indx == |Entries(ops, k + 1)|
      ensures cancel_indx >= old(cancel_indx)
      ensures cancel_indx > old(cancel_indx) <==> Hits(ops[k], row, cols[..n])
    {
      ghost var cs := cols[..n];
      ghost var cur := CancelledUpTo(ops, k, row, cs);
      Entered(ops, k, row, cs, cur);
      assert cur[k] == ops[k];
      var op_row, row_len := HeadAt(k, col0, cur);
      if op_row == row {
        CancelHeld(row, n, cols, k, col0, row_len, cur);
      } else {
        assert CancelledUpTo(ops, k + 1, row, cs) == cur;
      }
      col_indx := col0 + row_len;
    }

    /** Number and length of row k. */
    method HeadAt(k: nat, ghost at: nat, ghost ops: seq<RowOp>) returns (row: int, row_len: nat)
      requires Valid() && Holds(ops) && k < |ops| && at == |Entries(ops, k)|
      ensures row == ops[k].row && row_len == |ops[k].us|
      ensures at + row_len == |Entries(ops, k + 1)| <= |Entries(ops, |ops|)|
    {
      ghost var heads := Heads(ops, |ops|);
      RowK(ops, k, heads, Entries(ops, |ops|), at);
      assert off_proc_i[2 * k] == heads[2 * k] && off_proc_i[2 * k + 1] == heads[2 * k + 1];
      row, row_len := off_proc_i[2 * k], off_proc_i[2 * k + 1];
    }

    method CancelHeld(row: int, n: nat, cols: seq<int>, ghost k: nat, at: nat, row_len: nat, ghost ops: seq<RowOp>)
      requires Valid() && Holds(ops) && n <= |cols| && k < |ops| && at == |Entries(ops, k)|
      requires row == ops[k].row && row_len == |ops[k].us| && at + row_len <= |Entries(ops, |ops|)|
      modifies this`cancel_indx, off_proc_j
      ensures Valid() && Holds(ops[k := CancelOp(ops[k], row, cols[..n])])
      ensures cancel_indx >= old(cancel_indx)
      ensures cancel_indx > old(cancel_indx) <==> Hits(ops[k], row, cols[..n])
    {
      hide HeldAs, CancelOp, Hits, Entries;
      ghost var js := off_proc_j[..];
      LengthsFit(this, ops);
      var count := CancelIn(off_proc_j, at, row_len, cols, n);
      CancelledIn(off_proc_i[..], js, off_proc_j[..], off_proc_data[..], off_proc_i_indx, current_num_elmts, ops, k, at,
                  row, cols[..n]);
      cancel_indx := cancel_indx + count;
    }

    method WriteRow(row: int, n: nat, cols: seq<int>, values: seq<real>, indx: nat, ghost ops: seq<RowOp>)
      requires Valid() && Holds(ops) && indx + n <= |cols| && indx + n <= |values|
      requires current_num_elmts + n <= off_proc_j.Length && off_proc_i_indx + 2 <= off_proc_i.Length
      modifies this`off_proc_i_indx, this`current_num_elmts, off_proc_i, off_proc_j, off_proc_data
      ensures Valid() && Holds(ops + [RowOp(row, Stretch(cols, values, indx, n))])
    {
      ghost var us := Stretch(cols, values, indx, n);
      ghost var r := ops + [RowOp(row, us)];
      ghost var heads := off_proc_i[..off_proc_i_indx];
      PrefixSame(ops, r, |ops|);
      off_proc_i[off_proc_i_indx], off_proc_i[off_proc_i_indx + 1] := row, n;
      assert off_proc_i[..off_proc_i_indx + 2] == heads + [row, n];
      WriteEntries(off_proc_j, off_proc_data, current_num_elmts, n, cols, values, indx, Entries(ops, |ops|), us);
      off_proc_i_indx, current_num_elmts := off_proc_i_indx + 2, current_num_elmts + n;
    }
  }

  method WriteEntries(off_proc_j: array<int>, off_proc_data: array<real>, at: nat, n: nat, cols: seq<int>,
                      values: seq<real>, indx: nat, ghost all: seq<Entry>, ghost us: seq<Entry>)
    requires at + n <= off_proc_j.Length && at + n <= off_proc_data.Length && indx + n <= |cols| && indx + n <= |values|
    requires at == |all| && us == Stretch(cols, values, indx, n) && Begins(off_proc_j[..], off_proc_data[..], all, at)
    modifies off_proc_j, off_proc_data
    ensures Begins(off_proc_j[..], off_proc_data[..], all + us, at + n)
  {
    for i := 0 to n
      invariant forall p :: 0 <= p < at + i ==> Entry(off_proc_j[p], off_proc_data[p]) == (all + us)[p]
    {
      off_proc_j[at + i], off_proc_data[at + i] := cols[indx + i], values[indx + i];
    }
  }

  lemma LengthsFit(s: OffProcStash, ops: seq<RowOp>)
    requires s.Holds(ops)
    ensures |Entries(ops, |ops|)| <= s.off_proc_j.Length
  {}

  /** Compacting one row of length n whose entries start at col_indx, to where current_indx says. */
  method CompactRow(off_proc_j: array<int>, off_proc_data: array<real>, n: nat, col0: nat, current0: nat, num0: int,
                    ghost before: seq<Entry>, ghost all: seq<Entry>, ghost us: seq<Entry>)
    returns (current_indx: nat, row_len: nat, current_num_elmts: int)
    requires current0 == |before| <= col0 && n == |us| && col0 + n <= |all| <= off_proc_j.Length
      && |all| <= off_proc_data.Length
    requires Begins(off_proc_j[..], off_proc_data[..], before, current0)
    requires forall p :: col0 <= p < |all| ==> Entry(off_proc_j[p], off_proc_data[p]) == all[p]
    requires forall p :: 0 <= p < n ==> all[col0 + p] == us[p]
    modifies off_proc_j, off_proc_data
    ensures row_len == |Live(us, n)| && current_indx == current0 + row_len && current_num_elmts == num0 - n + row_len
    ensures Begins(off_proc_j[..], off_proc_data[..], before + Live(us, n), current_indx)
    ensures forall p :: col0 + n <= p < |all| ==> Entry(off_proc_j[p], off_proc_data[p]) == all[p]
  {
    current_indx, row_len, current_num_elmts := current0, n, num0;
    var col_indx := col0;
    for j := 0 to n
      invariant col_indx == col0 + j && current_indx == current0 + |Live(us, j)|
      invariant row_len == n - j + |Live(us, j)| && current_num_elmts == num0 - j + |Live(us, j)|
      invariant forall p ::
        0 <= p < current_indx ==> Entry(off_proc_j[p], off_proc_data[p]) == (before + Live(us, j))[p]
      invariant forall p :: col_indx <= p < |all| ==> Entry(off_proc_j[p], off_proc_data[p]) == all[p]
    {
      assert Entry(off_proc_j[col_indx], off_proc_data[col_indx]) == us[j] by { assert all[col0 + j] == us[j]; }
      if off_proc_j[col_indx] == -1 {
        col_indx := col_indx + 1;
        row_len, current_num_elmts := row_len - 1, current_num_elmts - 1;
      } else {
        off_proc_j[current_indx] := off_proc_j[col_indx];
        off_proc_data[current_indx] := off_proc_data[col_indx];
        current_indx, col_indx := current_indx + 1, col_indx + 1;
      }
    }
  }

  /** The first k rows are done. */
  ghost function CancelledUpTo(ops: seq<RowOp>, k: nat, row: int, cs: seq<int>): (r: seq<RowOp>)
    ensures |r| == |ops| && forall i :: 0 <= i < |ops| ==> r[i] == if i < k then CancelOp(ops[i], row, cs) else ops[i]
  {
    seq(|ops|, i requires 0 <= i < |ops| => if i < k then CancelOp(ops[i], row, cs) else ops[i])
  }

  lemma {:induction false} NothingHit(ops: seq<RowOp>, n: nat, row: int, cs: seq<int>)
    requires n <= |ops| && !AnyHits(ops, n, row, cs)
    ensures forall k :: 0 <= k < n ==> Cancelled(ops, row, cs)[k] == ops[k]
  {
    if n > 0 {
      NothingHit(ops, n - 1, row, cs);
      assert !Hits(ops[n - 1], row, cs);
      if ops[n - 1].row == row { assert CancelEntries(ops[n - 1].us, cs) == ops[n - 1].us; }
    }
  }

  lemma {:induction false} CompactedGrows(ops: seq<RowOp>, k: nat, out: seq<RowOp>)
    requires k <= |ops| && out == Compacted(ops, k)
    ensures |Entries(out, |out|)| <= |Entries(ops, k)|
    decreases k
  {
    if k > 0 {
      CompactedGrows(ops, k - 1, Compacted(ops, k - 1));
      KeptNext(Compacted(ops, k - 1), ops[k - 1].row, Live(ops[k - 1].us, |ops[k - 1].us|), out);
    }
  }

  /** The heads: first the kept ones, and from position `next` on those that are still to come. */
  ghost predicate HeadsSoFar(i: seq<int>, all: seq<int>, kept: seq<int>, next: nat) {
    && |kept| <= next <= |all| <= |i| && i[..|kept|] == kept
    && forall p :: next <= p < |all| ==> i[p] == all[p]
  }

  /** The entries: first the kept ones, and from position `next` on those that are still to come. */
  ghost predicate EntriesSoFar(j: seq<int>, data: seq<real>, all: seq<Entry>, kept: seq<Entry>, next: nat) {
    && |kept| <= next <= |all| <= |j| && |j| <= |data| && Begins(j, data, kept, |kept|)
    && forall p :: next <= p < |all| ==> Entry(j[p], data[p]) == all[p]
  }

  /** The heads of row k are written over those of an earlier row, or of row k itself. */
  method KeepHead(off_proc_i: array<int>, k: nat, current_i: nat, row_len: nat, new_indx: int, ghost all: seq<int>,
                  ghost kept: seq<int>)
    returns (current_i': nat, new_indx': int)
    requires 2 * k + 2 <= |all| && HeadsSoFar(off_proc_i[..], all, kept, 2 * k) && current_i == |kept|
    modifies off_proc_i
    ensures HeadsSoFar(off_proc_i[..], all, kept + (if row_len == 0 then [] else [all[2 * k], row_len]), 2 * (k + 1))
    ensures current_i' == current_i + (if row_len == 0 then 0 else 2)
      && new_indx' == new_indx - (if row_len == 0 then 2 else 0)
  {
    ghost var before := off_proc_i[..];
    current_i', new_indx' := current_i, new_indx;
    if row_len != 0 {
      off_proc_i[current_i] := off_proc_i[2 * k];
      off_proc_i[current_i + 1] := row_len;
      current_i' := current_i + 2;
      assert off_proc_i[..current_i'] == before[..current_i] + [all[2 * k], row_len];
    } else {
      new_indx' := new_indx - 2;
    }
  }

  /** What the ghost copies of the stash say about row k. */
  lemma RowK(ops: seq<RowOp>, k: nat, heads: seq<int>, all: seq<Entry>, at: nat)
    requires k < |ops| && heads == Heads(ops, |ops|) && all == Entries(ops, |ops|) && at == |Entries(ops, k)|
    ensures heads[2 * k] == ops[k].row && heads[2 * k + 1] == |ops[k].us|
    ensures at + |ops[k].us| == |Entries(ops, k + 1)| <= |all|
      && forall p :: 0 <= p < |ops[k].us| ==> all[at + p] == ops[k].us[p]
  {
    HeadsAt(ops, |ops|, k);
    EntriesGrow(ops, k + 1, |ops|);
    forall p | 0 <= p < |ops[k].us| ensures all[at + p] == ops[k].us[p] { EntriesAt(ops, |ops|, k, p); }
  }

  /** Counters of the compaction after k rows. */
  ghost predicate Counters(ops: seq<RowOp>, k: nat, out: seq<RowOp>, total: nat, col_indx: nat, current_i: nat,
                           current_indx: nat, num: int, new_indx: int)
  {
    && k <= |ops| && out == Compacted(ops, k) && col_indx == |Entries(ops, k)|
    && current_i == 2 * |out| && current_indx == |Entries(out, |out|)|
    && num == total - col_indx + current_indx && new_indx == 2 * |ops| - 2 * (k - |out|)
  }

  lemma CountersStart(ops: seq<RowOp>)
    ensures Counters(ops, 0, [], |Entries(ops, |ops|)|, 0, 0, 0, |Entries(ops, |ops|)|, 2 * |ops|)
    ensures Heads([], 0) == [] && Entries([], 0) == []
  {}

  lemma CountersEnd(ops: seq<RowOp>, out: seq<RowOp>, total: nat, col_indx: nat, current_i: nat, current_indx: nat,
                    num: int, new_indx: int)
    requires Counters(ops, |ops|, out, total, col_indx, current_i, current_indx, num, new_indx)
    ensures out == Compacted(ops, |ops|) && col_indx == |Entries(ops, |ops|)|
    ensures new_indx == 2 * |out| && num == total - col_indx + |Entries(out, |out|)|
  {}

  lemma CountersNext(ops: seq<RowOp>, k: nat, out: seq<RowOp>, total: nat, col_indx: nat, current_i: nat,
                     current_indx: nat, num: int, new_indx: int, us: seq<Entry>, r: seq<RowOp>)
    requires k < |ops| && Counters(ops, k, out, total, col_indx, current_i, current_indx, num, new_indx)
    requires us == Live(ops[k].us, |ops[k].us|) && r == out + Kept(ops[k].row, us)
    ensures Counters(ops, k + 1, r, total, col_indx + |ops[k].us|, current_i + (if |us| == 0 then 0 else 2),
      current_indx + |us|,
                     num - |ops[k].us| + |us|, new_indx - (if |us| == 0 then 2 else 0))
  {
    KeptNext(out, ops[k].row, us, r);
  }

  /** The compaction of hypre_IJMatrixAssembleParCSR, in place: cancelled entries are removed, rows without
      entries are dropped, the rest keeps its order and its row numbers, columns and values, and both counts
      are right.  Nothing happens unless something was cancelled. */
  method Compact(s: OffProcStash, ghost ops: seq<RowOp>)
    requires s.Valid() && s.Holds(ops)
    modifies s`off_proc_i_indx, s`current_num_elmts, s.off_proc_i, s.off_proc_j, s.off_proc_data
    ensures s.Valid() && s.Holds(if old(s.cancel_indx) != 0 then Compacted(ops, |ops|) else ops)
  {
    if s.cancel_indx != 0 {
      s.off_proc_i_indx, s.current_num_elmts :=
        CompactRows(s.off_proc_i, s.off_proc_j, s.off_proc_data, s.off_proc_i_indx, s.current_num_elmts, ops);
    }
  }

  method CompactRows(off_proc_i: array<int>, off_proc_j: array<int>, off_proc_data: array<real>, indx: nat, elmts: nat,
                     ghost ops: seq<RowOp>)
    returns (new_indx: int, num: int)
    requires off_proc_i != off_proc_j && off_proc_data.Length >= off_proc_j.Length && indx == 2 * |ops|
      && elmts == |Entries(ops, |ops|)|
    requires HeadsSoFar(off_proc_i[..], Heads(ops, |ops|), [], 0)
    requires EntriesSoFar(off_proc_j[..], off_proc_data[..], Entries(ops, |ops|), [], 0)
    modifies off_proc_i, off_proc_j, off_proc_data
    ensures var out := Compacted(ops, |ops|);
      && new_indx == 2 * |out| && num == |Entries(out, |out|)|
      && HeadsSoFar(off_proc_i[..], Heads(ops, |ops|), Heads(out, |out|), indx)
      && EntriesSoFar(off_proc_j[..], off_proc_data[..], Entries(ops, |ops|), Entries(out, |out|), elmts)
  {
    hide HeadsSoFar, EntriesSoFar, Begins, Counters, Heads, Entries, Compacted;
    ghost var heads, all := Heads(ops, |ops|), Entries(ops, |ops|);
    CountersStart(ops);
    var col_indx: nat, current_i: nat, current_indx: nat := 0, 0, 0;
    num, new_indx := elmts, indx;
    ghost var out: seq<RowOp> := [];
    for k := 0 to indx / 2
      invariant Counters(ops, k, out, |all|, col_indx, current_i, current_indx, num, new_indx)
      invariant HeadsSoFar(off_proc_i[..], heads, Heads(out, |out|), 2 * k)
      invariant EntriesSoFar(off_proc_j[..], off_proc_data[..], all, Entries(out, |out|), col_indx)
    {
      col_indx, current_i, current_indx, num, new_indx, out :=
        CompactNext(off_proc_i, off_proc_j, off_proc_data, k, col_indx, current_i, current_indx, num, new_indx, ops,
          out, heads, all);
    }
    CountersEnd(ops, out, |all|, col_indx, current_i, current_indx, num, new_indx);
  }

  /** Row k of the compaction. */
  method CompactNext(off_proc_i: array<int>, off_proc_j: array<int>, off_proc_data: array<real>, k: nat, col0: nat,
                     i0: nat, indx0: nat, num0: int, new0: int, ghost ops: seq<RowOp>, ghost out: seq<RowOp>,
                     ghost heads: seq<int>, ghost all: seq<Entry>)
    returns (col_indx: nat, current_i: nat, current_indx: nat, num: int, new_indx: int, ghost r: seq<RowOp>)
    requires off_proc_i != off_proc_j && k < |ops| && heads == Heads(ops, |ops|) && all == Entries(ops, |ops|)
    requires Counters(ops, k, out, |all|, col0, i0, indx0, num0, new0)
    requires HeadsSoFar(off_proc_i[..], heads, Heads(out, |out|), 2 * k)
    requires EntriesSoFar(off_proc_j[..], off_proc_data[..], all, Entries(out, |out|), col0)
    modifies off_proc_i, off_proc_j, off_proc_data
    ensures Counters(ops, k + 1, r, |all|, col_indx, current_i, current_indx, num, new_indx)
    ensures HeadsSoFar(off_proc_i[..], heads, Heads(r, |r|), 2 * (k + 1))
    ensures EntriesSoFar(off_proc_j[..], off_proc_data[..], all, Entries(r, |r|), col_indx)
  {
    hide Heads, Entries, Compacted;
    RowK(ops, k, heads, all, col0);
    var n := off_proc_i[2 * k + 1];
    ghost var us := Live(ops[k].us, n);
    r := out + Kept(ops[k].row, us);
    CountersNext(ops, k, out, |all|, col0, i0, indx0, num0, new0, us, r);
    KeptNext(out, ops[k].row, us, r);
    var row_len;
    current_indx, row_len, num :=
      CompactRow(off_proc_j, off_proc_data, n, col0, indx0, num0, Entries(out, |out|), all, ops[k].us);
    current_i, new_indx := KeepHead(off_proc_i, k, i0, row_len, new0, heads, Heads(out, |out|));
    col_indx := col0 + n;
  }

  lemma GrownNext(stashed: seq<RowOp>, op: RowOp)
    ensures RoomAfter(stashed + [op], |stashed| + 1)
      == Room(RoomAfter(stashed, |stashed|), |Entries(stashed, |stashed|)|, |op.us|)
    ensures Fits(stashed + [op], |stashed| + 1) ==> |stashed| + 1 <= RoomAfter(stashed + [op], |stashed| + 1)
  {
    RoomSame(stashed + [op], stashed, |stashed|);
    PrefixSame(stashed + [op], stashed, |stashed|);
  }

  /** What stays: exactly the entries that are not cancelled; no row of the compacted stash is empty. */
  lemma {:induction false} LiveIs(us: seq<Entry>, n: nat, e: Entry)
    requires n <= |us|
    ensures multiset(Live(us, n))[e] == if e.col == -1 then 0 else multiset(us[..n])[e]
  {
    hide Live;
    if n > 0 {
      LiveIs(us, n - 1, e);
      LiveLast(us, n);
      assert us[..n] == us[..n - 1] + [us[n - 1]];
      LiveNext(Live(us, n - 1), us[..n - 1], us[n - 1], e);
    } else {
      NoneLive(us);
    }
  }

  lemma NoneLive(us: seq<Entry>)
    ensures Live(us, 0) == [] == us[..0]
  {}

  lemma LiveLast(us: seq<Entry>, n: nat)
    requires 0 < n <= |us|
    ensures Live(us, n) == Live(us, n - 1) + (if us[n - 1].col != -1 then [us[n - 1]] else [])
  {}

  lemma LiveNext(live: seq<Entry>, us: seq<Entry>, x: Entry, e: Entry)
    requires multiset(live)[e] == if e.col == -1 then 0 else multiset(us)[e]
    ensures multiset(live + (if x.col != -1 then [x] else []))[e] == if e.col == -1 then 0 else multiset(us + [x])[e]
  {
    if x.col == -1 { assert live + [] == live; }
  }

  lemma {:induction false} CompactedNonEmpty(ops: seq<RowOp>, n: nat)
    requires n <= |ops|
    ensures forall k :: 0 <= k < |Compacted(ops, n)| ==> Compacted(ops, n)[k].us != []
  {
    if n > 0 { CompactedNonEmpty(ops, n - 1); }
  }

  // ------------------------------------------------------------------ as the exchange reads it

  lemma {:induction false} PrefixIsEntries(ncols: seq<nat>, ops: seq<RowOp>, k: nat)
    requires |ncols| == |ops| && (forall i :: 0 <= i < |ops| ==> ncols[i] == |ops[i].us|) && k <= |ops|
    ensures Prefix(ncols, k) == |Entries(ops, k)|
  {
    if k > 0 { PrefixIsEntries(ncols, ops, k - 1); }
  }

  /** Row numbers and lengths apart, as hypre_IJMatrixAssembleOffProcValsParCSR walks through off_proc_i. */
  method AsCall(s: OffProcStash, ghost ops: seq<RowOp>) returns (call: Call)
    requires s.Valid() && s.Holds(ops)
    ensures call.Valid() && call.Ops() == ops
  {
    var rows: seq<int>, ncols: seq<nat> := [], [];
    ghost var heads := Heads(ops, |ops|);
    for k := 0 to s.off_proc_i_indx / 2
      invariant |rows| == |ncols| == k && forall i :: 0 <= i < k ==> rows[i] == ops[i].row && ncols[i] == |ops[i].us|
    {
      HeadsAt(ops, |ops|, k);
      assert s.off_proc_i[2 * k] == heads[2 * k] && s.off_proc_i[2 * k + 1] == heads[2 * k + 1];
      rows, ncols := rows + [s.off_proc_i[2 * k]], ncols + [s.off_proc_i[2 * k + 1]];
    }
    call := Call(ncols, rows, s.off_proc_j[..s.current_num_elmts], s.off_proc_data[..s.current_num_elmts]);
    CallHolds(call, ops);
  }

  lemma CallHolds(call: Call, ops: seq<RowOp>)
    requires |call.rows| == |call.ncols| == |ops| && |call.cols| == |call.values| == |Entries(ops, |ops|)|
    requires forall i :: 0 <= i < |ops| ==> call.rows[i] == ops[i].row && call.ncols[i] == |ops[i].us|
    requires Begins(call.cols, call.values, Entries(ops, |ops|), |call.cols|)
    ensures call.Valid() && call.Ops() == ops
  {
    PrefixIsEntries(call.ncols, ops, |ops|);
    forall k | 0 <= k < |ops| ensures call.Op(k) == ops[k] {
      PrefixIsEntries(call.ncols, ops, k);
      forall j | 0 <= j < |ops[k].us| ensures call.Op(k).us[j] == ops[k].us[j] { EntriesAt(ops, |ops|, k, j); }
      assert call.Op(k).us == ops[k].us;
    }
  }
}
