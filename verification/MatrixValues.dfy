module MatrixValues {
  // hypre_IJMatrixGetValuesParCSR, and what it returns after setting, adding and assembling.

  import opened Basics
  import opened SparseRows
  import opened AuxMatrix
  import opened Assembly
  import opened ColumnMap

  // ------------------------------------------------------------------ what the rows of the parts say

  lemma {:induction false} AtFirst(row: seq<Entry>, c: int, k: nat)
    requires k < |row| && row[k].col == c && forall i :: 0 <= i < k ==> row[i].col != c
    ensures At(row, c) == Some(row[k].val)
  {
    FindIs(row, c, k);
  }

  lemma AtNone(row: seq<Entry>, c: int)
    requires forall i :: 0 <= i < |row| ==> row[i].col != c
    ensures At(row, c) == None
  {
    FindIs(row, c, |row|);
  }

  /** Column c is the diagonal column of row i, whose entry the assembly moves to the front. */
  predicate OnDiagonal(i: int, col_0: int, col_n: int, c: int) { col_0 <= c <= col_n && c - col_0 == i }

  /** Of the values xs a row buffer holds for a column, the one that is found once the matrix is assembled:
      the first, but on the diagonal the last. */
  function Held(xs: seq<real>, diagonal: bool): Option<real> {
    if |xs| == 0 then None else Some(if diagonal then xs[|xs| - 1] else xs[0])
  }

  /** What a query for column c in row i is answered with: 0 if the row buffer holds nothing for it. */
  function Answer(row: seq<Entry>, i: int, col_0: int, col_n: int, c: int): real {
    ValueOf(ReadAt(row, i, col_0, col_n, c))
  }

  lemma AnswerIs(row: seq<Entry>, i: int, col_0: int, col_n: int, c: int)
    ensures var xs := Vals(row, c);
      Answer(row, i, col_0, col_n, c)
      == if |xs| == 0 then 0.0 else if 0 <= c - col_0 == i && c <= col_n then xs[|xs| - 1] else xs[0]
  {}

  /** What the assembled matrix says of column c in row i. */
  function ReadAt(row: seq<Entry>, i: int, col_0: int, col_n: int, c: int): Option<real> {
    Held(Vals(row, c), OnDiagonal(i, col_0, col_n, c))
  }

  lemma ValsSnoc(row: seq<Entry>, k: nat, c: int)
    requires k < |row|
    ensures Vals(row[..k + 1], c) == Vals(row[..k], c) + (if row[k].col == c then [row[k].val] else [])
  {
    assert row[..k + 1] == row[..k] + [row[k]];
    ValsConcat(row[..k], [row[k]], c);
    ValsOne(row[k], c);
  }

  lemma ValsOne(e: Entry, c: int)
    ensures Vals([e], c) == if e.col == c then [e.val] else []
  {
    assert [e][1..] == [];
  }

  /** The position kept for the diagonal is that of the last diagonal entry. */
  lemma {:induction false} DiagPosIsLast(row: seq<Entry>, i: int, col_0: int, col_n: int, k: nat)
    requires k <= |row| && Owned(i + col_0, col_0, col_n)
    ensures var p, xs := DiagPos(row, i, col_0, col_n, k), Vals(row[..k], i + col_0);
      if |xs| == 0 then p == -1 else p >= 0 && xs[|xs| - 1] == row[p].val
  {
    if k > 0 {
      DiagPosIsLast(row, i, col_0, col_n, k - 1);
      ValsSnoc(row, k - 1, i + col_0);
    }
  }

  /** The other owned entries stay in order. */
  lemma {:induction false} DiagRestVals(row: seq<Entry>, p: int, col_0: int, col_n: int, k: nat, c: int)
    requires k <= |row| && Owned(c, col_0, col_n) && (0 <= p < |row| ==> row[p].col != c)
    ensures Vals(DiagRest(row, p, col_0, col_n, k), c - col_0) == Vals(row[..k], c)
  {
    hide Vals;
    if k > 0 {
      DiagRestVals(row, p, col_0, col_n, k - 1, c);
      ValsSnoc(row, k - 1, c);
      var rest, e := DiagRest(row, p, col_0, col_n, k - 1), Shift(row[k - 1], col_0);
      ValsConcat(rest, [e], c - col_0);
      ValsOne(e, c - col_0);
      assert rest + [] == rest;
    } else {
      NoVals(row, c);
      NoVals(DiagRest(row, p, col_0, col_n, 0), c - col_0);
    }
  }

  /** Looking an owned column up in the diag part finds the first of the row's values for it, but for the
      row's diagonal column the last. */
  lemma DiagRowAt(row: seq<Entry>, i: int, col_0: int, col_n: int, c: int)
    requires Owned(c, col_0, col_n)
    ensures At(DiagRow(row, i, col_0, col_n), c - col_0) == ReadAt(row, i, col_0, col_n, c)
  {
    hide Vals, At, DiagRest, DiagPos, DiagRow;
    var p := DiagPos(row, i, col_0, col_n, |row|);
    assert row[..|row|] == row;
    if c - col_0 == i {
      DiagPosIsLast(row, i, col_0, col_n, |row|);
      if p >= 0 { DiagFirst(row, i, col_0, col_n); } else { OtherDiagAt(row, i, col_0, col_n, c); }
    } else {
      OtherDiagAt(row, i, col_0, col_n, c);
    }
  }

  lemma DiagFirst(row: seq<Entry>, i: int, col_0: int, col_n: int)
    requires DiagPos(row, i, col_0, col_n, |row|) >= 0
    ensures At(DiagRow(row, i, col_0, col_n), i) == Some(row[DiagPos(row, i, col_0, col_n, |row|)].val)
  {
    hide At, DiagRest;
    AtFirst(DiagRow(row, i, col_0, col_n), i, 0);
  }

  lemma OtherDiagAt(row: seq<Entry>, i: int, col_0: int, col_n: int, c: int)
    requires Owned(c, col_0, col_n) && (DiagPos(row, i, col_0, col_n, |row|) >= 0 ==> c - col_0 != i)
    ensures At(DiagRow(row, i, col_0, col_n), c - col_0) == if |Vals(row, c)| == 0 then None else Some(Vals(row, c)[0])
  {
    hide Vals, At, DiagRest, DiagPos;
    var p := DiagPos(row, i, col_0, col_n, |row|);
    var head, rest := DiagHead(row, i, col_0, col_n), DiagRest(row, p, col_0, col_n, |row|);
    assert row[..|row|] == row;
    if p >= 0 { ValsOne(head[0], c - col_0); } else { ValsNone([], c - col_0); }
    ValsConcat(head, rest, c - col_0);
    DiagRestVals(row, p, col_0, col_n, |row|, c);
    NothingBefore(Vals(head, c - col_0), Vals(row, c));
    AtIsFirst(head + rest, c - col_0);
  }

  /** The offd part says the same as the row buffer about columns of other processors. */
  lemma {:induction false} OffdRowAt(row: seq<Entry>, col_0: int, col_n: int, k: nat, c: int)
    requires k <= |row| && !Owned(c, col_0, col_n)
    ensures At(OffdRow(row, col_0, col_n, k), c) == At(row[..k], c)
  {
    if k > 0 {
      OffdRowAt(row, col_0, col_n, k - 1, c);
      assert row[..k] == row[..k - 1] + [row[k - 1]];
      AtSnoc(row[..k - 1], row[k - 1], c);
      var o := OffdRow(row, col_0, col_n, k - 1);
      if Owned(row[k - 1].col, col_0, col_n) { assert o + [] == o; } else { AtSnoc(o, row[k - 1], c); }
    }
  }

  lemma AtSnoc(row: seq<Entry>, e: Entry, c: int)
    ensures At(row + [e], c) == if At(row, c).Some? then At(row, c) else if e.col == c then Some(e.val) else None
  {
    var f := Find(row, c);
    FindIs(row + [e], c, if f < |row| then f else if e.col == c then |row| else |row| + 1);
  }

  // ------------------------------------------------------------------ reading the assembled matrix

  lemma {:induction false} FlattenRow(parts: seq<seq<Entry>>, k: nat)
    requires k < |parts|
    ensures |Flatten(parts)| == Prefix(Lens(parts), |parts|)
    ensures Prefix(Lens(parts), k + 1) == Prefix(Lens(parts), k) + |parts[k]| <= |Flatten(parts)|
    ensures Flatten(parts)[Prefix(Lens(parts), k)..Prefix(Lens(parts), k + 1)] == parts[k]
  {
    hide Flatten, Prefix;
    var n := |parts| - 1;
    FlattenLength(parts);
    FlattenLength(parts[..n]);
    FlattenLast(parts);
    PrefixOfInit(parts, n);
    PrefixMonotone(Lens(parts), k + 1, |parts|);
    PrefixNext(Lens(parts), k);
    if k < n {
      PrefixOfInit(parts, k);
      PrefixOfInit(parts, k + 1);
      FlattenRow(parts[..n], k);
    }
  }

  lemma FlattenLast(parts: seq<seq<Entry>>)
    requires |parts| > 0
    ensures Flatten(parts) == Flatten(parts[..|parts| - 1]) + parts[|parts| - 1]
  {}

  lemma PrefixNext(ncols: seq<nat>, k: nat)
    requires k < |ncols|
    ensures Prefix(ncols, k + 1) == Prefix(ncols, k) + ncols[k]
  {}

  lemma {:induction false} FlattenLength(parts: seq<seq<Entry>>)
    ensures |Flatten(parts)| == Prefix(Lens(parts), |parts|)
  {
    if parts != [] {
      FlattenLength(parts[..|parts| - 1]);
      PrefixOfInit(parts, |parts| - 1);
    }
  }

  lemma {:induction false} PrefixOfInit(parts: seq<seq<Entry>>, k: nat)
    requires k < |parts|
    ensures Prefix(Lens(parts[..|parts| - 1]), k) == Prefix(Lens(parts), k)
  {
    if k > 0 { PrefixOfInit(parts, k - 1); }
  }

  /** What an assembled matrix is asked for: 0 where nothing was stored. */
  function ValueOf(x: Option<real>): real { if x.Some? then x.value else 0.0 }

  /** diag, offd and col_map represent the rows m; base is the first column of the whole matrix. */
  ghost predicate Represents(m: seq<seq<Entry>>, col_0: int, col_n: int, base: int, diag: CsrPart, offd: CsrPart,
                             col_map: seq<int>)
    reads diag.i, diag.j, diag.data, offd.i, offd.j, offd.data
  {
    && diag.Valid() && offd.Valid() && InMap(offd.Cells(), col_map)
    && IsCsr(diag.i[..], diag.Cells(), DiagRows(m, col_0, col_n))
    && IsCsr(offd.i[..], Decoded(offd.Cells(), col_map, base), OffdRows(m, col_0, col_n))
  }

  lemma CsrLength(starts: seq<int>, cells: seq<Entry>, parts: seq<seq<Entry>>)
    requires IsCsr(starts, cells, parts)
    ensures |starts| == |parts| + 1
  {}

  /** The row pointers of row r enclose its entries. */
  lemma CsrRow(starts: seq<int>, cells: seq<Entry>, parts: seq<seq<Entry>>, r: nat)
    requires IsCsr(starts, cells, parts) && r < |parts|
    ensures 0 <= starts[r] <= starts[r + 1] <= |cells| && cells[starts[r]..starts[r + 1]] == parts[r]
  {
    FlattenRow(parts, r);
  }

  method SearchDiag(diag: CsrPart, lo: nat, hi: nat, key: int) returns (v: real)
    requires diag.Valid() && lo <= hi <= |diag.Cells()|
    ensures v == ValueOf(At(diag.Cells()[lo..hi], key))
  {
    ghost var row := diag.Cells()[lo..hi];
    v := 0.0;
    for j := lo to hi
      invariant v == 0.0 && forall k :: 0 <= k < j - lo ==> row[k].col != key
    {
      if diag.j[j] == key {
        AtFirst(row, key, j - lo);
        return diag.data[j];
      }
    }
    AtNone(row, key);
  }

  method SearchOffd(offd: CsrPart, col_map: seq<int>, lo: nat, hi: nat, key: int, ghost base: int) returns (v: real)
    requires offd.Valid() && InMap(offd.Cells(), col_map) && lo <= hi <= |offd.Cells()|
    ensures v == ValueOf(At(Decoded(offd.Cells(), col_map, base)[lo..hi], key + base))
  {
    ghost var row := Decoded(offd.Cells(), col_map, base)[lo..hi];
    v := 0.0;
    for j := lo to hi
      invariant v == 0.0 && forall k :: 0 <= k < j - lo ==> row[k].col != key + base
    {
      assert 0 <= offd.Cells()[j].col < |col_map| && row[j - lo].col == col_map[offd.j[j]] + base;
      if col_map[offd.j[j]] == key {
        AtFirst(row, key + base, j - lo);
        return offd.data[j];
      }
    }
    AtNone(row, key + base);
  }

  method GetDiag(diag: CsrPart, r: nat, key: int, ghost m: seq<seq<Entry>>, ghost col_0: int, ghost col_n: int)
    returns (v: real)
    requires r < |m| && Owned(key + col_0, col_0, col_n)
    requires diag.Valid() && IsCsr(diag.i[..], diag.Cells(), DiagRows(m, col_0, col_n))
    ensures v == Answer(m[r], r, col_0, col_n, key + col_0)
  {
    hide At, ReadAt, DiagRow;
    CsrRow(diag.i[..], diag.Cells(), DiagRows(m, col_0, col_n), r);
    DiagRowAt(m[r], r, col_0, col_n, key + col_0);
    v := SearchDiag(diag, diag.i[r], diag.i[r + 1], key);
  }

  method GetOffd(offd: CsrPart, col_map: seq<int>, r: nat, key: int, ghost m: seq<seq<Entry>>, ghost col_0: int,
                 ghost col_n: int, ghost base: int)
    returns (v: real)
    requires r < |m| && !Owned(key + base, col_0, col_n)
    requires offd.Valid() && InMap(offd.Cells(), col_map)
    requires IsCsr(offd.i[..], Decoded(offd.Cells(), col_map, base), OffdRows(m, col_0, col_n))
    ensures v == Answer(m[r], r, col_0, col_n, key + base)
  {
    hide Vals, At, OffdRow;
    AtIsFirst(m[r], key + base);
    CsrRow(offd.i[..], Decoded(offd.Cells(), col_map, base), OffdRows(m, col_0, col_n), r);
    OffdRowAt(m[r], col_0, col_n, |m[r]|, key + base);
    assert m[r][..|m[r]|] == m[r];
    v := SearchOffd(offd, col_map, offd.i[r], offd.i[r + 1], key, base);
  }

  /** One entry of an owned row; first_col and last_col are those of the ParCSR matrix, whose columns start at 0. */
  method GetValue(diag: CsrPart, offd: CsrPart, col_map: seq<int>, first: int, first_col: int, last_col: int, r: nat,
                  col: int, ghost m: seq<seq<Entry>>)
    returns (v: real)
    requires r < |m|
    requires Represents(m, first_col + first, last_col + first, first, diag, offd, col_map)
    ensures var xs := Vals(m[r], col);
      v == if |xs| == 0 then 0.0
           else if 0 <= col - first - first_col == r && col - first <= last_col then xs[|xs| - 1] else xs[0]
  {
    hide Represents, Answer, Vals;
    AnswerIs(m[r], r, first_col + first, last_col + first, col);
    v := GetAnswer(diag, offd, col_map, first, first_col, last_col, r, col, m);
  }

  method GetAnswer(diag: CsrPart, offd: CsrPart, col_map: seq<int>, first: int, first_col: int, last_col: int, r: nat,
                   col: int, ghost m: seq<seq<Entry>>)
    returns (v: real)
    requires r < |m|
    requires Represents(m, first_col + first, last_col + first, first, diag, offd, col_map)
    ensures v == Answer(m[r], r, first_col + first, last_col + first, col)
  {
    hide Answer, IsCsr, InMap, CsrPart.Valid, CsrPart.Cells, Decoded;
    var col_indx := col - first;
    if col_indx < first_col || col_indx > last_col {
      v := GetOffd(offd, col_map, r, col_indx, m, first_col + first, last_col + first, first);
    } else {
      v := GetDiag(diag, r, col_indx - first_col, m, first_col + first, last_col + first);
    }
  }

  // ------------------------------------------------------------------ hypre_IJMatrixGetValuesParCSR

  /** values[lo..hi] hold row i's entries in the columns asked for. */
  ghost predicate Answered(row: seq<Entry>, i: int, col_0: int, col_n: int, cols: seq<int>, values: seq<real>, lo: nat,
                           hi: nat) {
    && lo <= hi <= |cols| && hi <= |values|
    && forall k :: lo <= k < hi ==> values[k] == Answer(row, i, col_0, col_n, cols[k])
  }

  /** The columns asked for in one owned row. */
  method GetRow(diag: CsrPart, offd: CsrPart, col_map: seq<int>, first: int, first_col: int, last_col: int, r: nat,
                cols: seq<int>, indx: nat, n: nat, values: array<real>, ghost m: seq<seq<Entry>>)
    requires r < |m| && indx + n <= |cols| && indx + n <= values.Length && values != diag.data && values != offd.data
    requires Represents(m, first_col + first, last_col + first, first, diag, offd, col_map)
    modifies values
    ensures Answered(m[r], r, first_col + first, last_col + first, cols, values[..], indx, indx + n)
    ensures forall k :: 0 <= k < values.Length && !(indx <= k < indx + n) ==> values[k] == old(values[k])
  {
    hide Answer, Vals;
    for i := 0 to n
      invariant Represents(m, first_col + first, last_col + first, first, diag, offd, col_map)
      invariant forall k ::
        indx <= k < indx + i ==> values[k] == Answer(m[r], r, first_col + first, last_col + first, cols[k])
      invariant forall k :: 0 <= k < values.Length && !(indx <= k < indx + n) ==> values[k] == old(values[k])
    {
      AnswerIs(m[r], r, first_col + first, last_col + first, cols[indx + i]);
      values[indx + i] := GetValue(diag, offd, col_map, first, first_col, last_col, r, cols[indx + i], m);
    }
  }

  /** A query, and the rows and columns of the processor that answers it. */
  datatype Query = Query(first_row: int, rows_here: nat, col_0: int, col_n: int, ncols: seq<nat>, rows: seq<int>,
                         cols: seq<int>)
  {
    predicate Valid() { |ncols| == |rows| }

    predicate OwnsRow(jj: nat)
      requires jj < |rows|
    {
      0 <= rows[jj] - first_row < rows_here
    }

    /** Where the columns asked for in row ii of the call start: rows of other processors take up no place. */
    function Start(ii: nat): (k: nat)
      requires Valid() && ii <= |rows|
      ensures k <= Prefix(ncols, ii)
    {
      if ii == 0 then 0 else Start(ii - 1) + (if OwnsRow(ii - 1) then ncols[ii - 1] else 0)
    }
  }

  /** The first ii rows of a query on the rows m are answered. */
  ghost predicate AnsweredUpTo(m: seq<seq<Entry>>, q: Query, values: seq<real>, ii: nat)
    requires q.Valid() && ii <= |q.rows| && q.rows_here == |m|
  {
    ii == 0 ||
    (&& AnsweredUpTo(m, q, values, ii - 1)
     && (q.OwnsRow(ii - 1) ==>
           var r := q.rows[ii - 1] - q.first_row;
           Answered(m[r], r, q.col_0, q.col_n, q.cols, values, q.Start(ii - 1), q.Start(ii - 1) + q.ncols[ii - 1])))
  }

  lemma NoneAnswered(m: seq<seq<Entry>>, q: Query, values: seq<real>)
    requires q.Valid() && q.rows_here == |m|
    ensures AnsweredUpTo(m, q, values, 0) && q.Start(0) == 0
  {}

  /** The answers so far, `end` values of them, stay when later values change. */
  lemma {:induction false} AnsweredStays(m: seq<seq<Entry>>, q: Query, values: seq<real>, values': seq<real>, ii: nat,
                                         end: nat)
    requires q.Valid() && ii <= |q.rows| && q.rows_here == |m| && AnsweredUpTo(m, q, values, ii)
    requires q.Start(ii) <= end <= |values| == |values'|
    requires forall k :: 0 <= k < end ==> values[k] == values'[k]
    ensures AnsweredUpTo(m, q, values', ii)
  {
    if ii > 0 { AnsweredStays(m, q, values, values', ii - 1, end); }
  }

  /** Every owned row of the query is answered with what its entries hold. */
  lemma {:induction false} AnsweredMeans(m: seq<seq<Entry>>, q: Query, values: seq<real>, ii: nat, jj: nat, k: nat)
    requires q.Valid() && jj < ii <= |q.rows| && q.rows_here == |m| && AnsweredUpTo(m, q, values, ii)
    requires q.OwnsRow(jj) && k < q.ncols[jj]
    ensures var at, r := q.Start(jj) + k, q.rows[jj] - q.first_row;
      && at < |values| && at < |q.cols|
      && var xs := Vals(m[r], q.cols[at]);
        values[at] == if |xs| == 0 then 0.0
                      else if 0 <= q.cols[at] - q.col_0 == r && q.cols[at] <= q.col_n then xs[|xs| - 1] else xs[0]
  {
    if jj == ii - 1 {
      var r := q.rows[jj] - q.first_row;
      AnswerIs(m[r], r, q.col_0, q.col_n, q.cols[q.Start(jj) + k]);
    }
    if jj < ii - 1 { AnsweredMeans(m, q, values, ii - 1, jj, k); }
  }

  /** The assembled matrix as hypre_IJMatrixGetValuesParCSR sees it; first_col and last_col are the first and
      last column this processor owns, counted from `first`, the first column of the whole matrix. */
  datatype ParCsr = ParCsr(diag: CsrPart, offd: CsrPart, col_map: seq<int>, first_row: int, first: int, first_col: int,
                           last_col: int)
  {
    ghost predicate Holds(m: seq<seq<Entry>>)
      reads diag.i, diag.j, diag.data, offd.i, offd.j, offd.data
    {
      Represents(m, first_col + first, last_col + first, first, diag, offd, col_map) && diag.i.Length == |m| + 1
    }
  }

  /** hypre_IJMatrixAssembleParCSR on a matrix whose values are in row buffers, on any number of threads;
      columns col_0 to col_n are this processor's, base is the first column of the whole matrix. */
  method Assemble(mat: RowMatrix, col_0: int, col_n: int, base: int, num_threads: nat) returns (par: ParCsr)
    requires mat.Valid() && num_threads >= 1
    ensures par.Holds(mat.Contents()) && Increasing(par.col_map) && par.first_row == mat.first
    ensures par.first_col + par.first == col_0 && par.last_col + par.first == col_n
    ensures fresh(par.diag.data) && fresh(par.offd.data)
  {
    par := RowsAndColumns(mat.Contents(), mat.first, col_0 - base, col_n - base, base, num_threads);
  }

  method RowsAndColumns(m: seq<seq<Entry>>, first_row: int, first_col: int, last_col: int, base: int, num_threads: nat)
    returns (par: ParCsr)
    requires num_threads >= 1
    ensures par.Holds(m) && Increasing(par.col_map) && par.first_row == first_row
    ensures par.first == base && par.first_col == first_col && par.last_col == last_col
    ensures fresh(par.diag.data) && fresh(par.offd.data)
  {
    hide IsCsr, Increasing, InMap;
    var diag, offd := AssembleRows(m, first_col + base, last_col + base, num_threads);
    ghost var dc := diag.Cells();
    var col_map_offd := Compress(offd, base);
    assert diag.Cells() == dc;
    CsrLength(diag.i[..], dc, DiagRows(m, first_col + base, last_col + base));
    par := ParCsr(diag, offd, col_map_offd, first_row, base, first_col, last_col);
  }

  /** The query as matrix mat, whose rows are m, answers it. */
  ghost function QueryOf(mat: ParCsr, m: seq<seq<Entry>>, ncols: seq<nat>, rows: seq<int>, cols: seq<int>): Query {
    Query(mat.first_row, |m|, mat.first_col + mat.first, mat.last_col + mat.first, ncols, rows, cols)
  }

  /** Row ii of a query. */
  method GetQueryRow(mat: ParCsr, ncols: seq<nat>, rows: seq<int>, cols: seq<int>, ii: nat, indx: nat,
                     values: array<real>, ghost m: seq<seq<Entry>>, ghost q: Query)
    returns (indx': nat)
    requires q == QueryOf(mat, m, ncols, rows, cols) && q.Valid() && ii < |rows|
    requires values != mat.diag.data && values != mat.offd.data && |cols| == values.Length
    requires mat.Holds(m) && AnsweredUpTo(m, q, values[..], ii)
    requires indx == q.Start(ii) && q.Start(ii + 1) <= |cols|
    modifies values
    ensures AnsweredUpTo(m, q, values[..], ii + 1)
    ensures indx' == q.Start(ii + 1) >= indx
    ensures forall k :: indx' <= k < values.Length ==> values[k] == old(values[k])
  {
    hide Represents, Answered, Prefix;
    indx' := indx;
    ghost var before := values[..];
    if 0 <= rows[ii] - mat.first_row < mat.diag.i.Length - 1 {
      GetRow(mat.diag, mat.offd, mat.col_map, mat.first, mat.first_col, mat.last_col, rows[ii] - mat.first_row,
             cols, indx, ncols[ii], values, m);
      indx' := indx + ncols[ii];
    }
    AnsweredStays(m, q, before, values[..], ii, indx);
  }

  /** hypre_IJMatrixGetValuesParCSR with nrows >= 0. */
  method GetValues(mat: ParCsr, ncols: seq<nat>, rows: seq<int>, cols: seq<int>, values: array<real>,
                   ghost m: seq<seq<Entry>>)
    requires |ncols| == |rows| && Prefix(ncols, |ncols|) <= |cols| == values.Length
    requires values != mat.diag.data && values != mat.offd.data && mat.Holds(m)
    modifies values
    ensures var q := QueryOf(mat, m, ncols, rows, cols);
      && AnsweredUpTo(m, q, values[..], |rows|)
      && forall k :: q.Start(|rows|) <= k < values.Length ==> values[k] == old(values[k])
  {
    hide AnsweredUpTo, Query.Start, Prefix, ParCsr.Holds;
    ghost var q := QueryOf(mat, m, ncols, rows, cols);
    NoneAnswered(m, q, values[..]);
    var indx := 0;
    for ii := 0 to |rows|
      invariant indx == q.Start(ii)
      invariant mat.Holds(m) && AnsweredUpTo(m, q, values[..], ii)
      invariant forall k :: indx <= k < values.Length ==> values[k] == old(values[k])
    {
      PrefixMonotone(ncols, ii + 1, |ncols|);
      indx := GetQueryRow(mat, ncols, rows, cols, ii, indx, values, m, q);
    }
  }

  /** The answers to row ii are where the caller laid out its columns exactly when every earlier row
      with columns is owned: the program does not step over the columns of other processors' rows. */
  lemma {:induction false} QueryAligned(q: Query, ii: nat)
    requires q.Valid() && ii <= |q.rows|
    ensures q.Start(ii) == Prefix(q.ncols, ii) <==> forall j :: 0 <= j < ii ==> q.OwnsRow(j) || q.ncols[j] == 0
  {
    if ii > 0 { QueryAligned(q, ii - 1); }
  }
}
