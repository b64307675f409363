module SparseRows {
  // Rows of a matrix that is not assembled yet: hypre_AuxParCSRMatrix keeps, for each local row, a
  // growing buffer of columns and values (aux_j, aux_data, row_length, row_space).

  import opened Basics

  datatype Entry = Entry(col: int, val: real)

  function Cols(row: seq<Entry>): (r: seq<int>)
    ensures |r| == |row|
  {
    seq(|row|, i requires 0 <= i < |row| => row[i].col)
  }

  /** The first position of column c, or |row|. */
  function Find(row: seq<Entry>, c: int): (k: nat)
    ensures k <= |row|
    ensures k < |row| ==> row[k].col == c
    ensures forall i :: 0 <= i < k ==> row[i].col != c
  {
    if row == [] then 0 else if row[0].col == c then 0 else 1 + Find(row[1..], c)
  }

  /** What a row says about column c. */
  function At(row: seq<Entry>, c: int): Option<real> {
    var k := Find(row, c);
    if k < |row| then Some(row[k].val) else None
  }

  function Combine(add: bool, x: real, v: real): real { if add then x + v else v }

  /** One column of a row update: the search looks only at the first n entries, those the row had before. */
  function Put(add: bool, row: seq<Entry>, n: nat, u: Entry): (r: seq<Entry>)
    requires n <= |row|
    ensures |r| >= |row|
  {
    var k := Find(row[..n], u.col);
    if k < n then row[k := Entry(u.col, Combine(add, row[k].val, u.val))] else row + [u]
  }

  function PutAll(add: bool, row: seq<Entry>, n: nat, us: seq<Entry>): (r: seq<Entry>)
    requires n <= |row|
    ensures |r| >= |row|
    decreases |us|
  {
    if us == [] then row else PutAll(add, Put(add, row, n, us[0]), n, us[1..])
  }

  /** Set (or add to) the columns `us` of a row. */
  function RowUpdate(add: bool, row: seq<Entry>, us: seq<Entry>): seq<Entry> { PutAll(add, row, |row|, us) }

  lemma {:induction false} PutAllSnoc(add: bool, row: seq<Entry>, n: nat, us: seq<Entry>, u: Entry)
    requires n <= |row|
    ensures PutAll(add, row, n, us + [u]) == Put(add, PutAll(add, row, n, us), n, u)
    decreases |us|
  {
    if us == [] {
      assert us + [u] == [u];
    } else {
      assert (us + [u])[1..] == us[1..] + [u];
      PutAllSnoc(add, Put(add, row, n, us[0]), n, us[1..], u);
    }
  }

  /** A row buffer: aux_j[i], aux_data[i] and row_length[i] of hypre_AuxParCSRMatrix; the length is row_space[i]. */
  class RowBuffer {
    var cols: array<int>
    var vals: array<real>
    var length: nat

    ghost predicate Valid()
      reads this
    {
      length <= cols.Length == vals.Length
    }

    function Entries(): (r: seq<Entry>)
      requires Valid()
      reads this, cols, vals
      ensures |r| == length
    {
      seq(length, i requires 0 <= i < length reads this, cols, vals requires Valid() => Entry(cols[i], vals[i]))
    }

    /** hypre_AuxParCSRMatrixInitialize: an empty row with the given space (30 when none was given). */
    constructor (space: nat)
      ensures Valid() && length == 0 && Entries() == [] && cols.Length == space
      ensures fresh(cols) && fresh(vals)
    {
      cols := new int[space];
      vals := new real[space];
      length := 0;
    }

    /** The part of hypre_IJMatrixSetValuesParCSR (add = false) and hypre_IJMatrixAddToValuesParCSR
        (add = true) that works on one owned row: entries found among the old ones are changed in
        place, others go to the free space or, once that is used up, to a temporary buffer that is
        moved over after growing the row. */
    method Update(add: bool, cs: seq<int>, vs: seq<real>, indx: nat, n: nat)
      requires Valid() && indx + n <= |cs| && indx + n <= |vs|
      modifies this, cols, vals
      ensures Valid()
      ensures Entries() == RowUpdate(add, old(Entries()), Stretch(cs, vs, indx, n))
      ensures (cols == old(cols) && vals == old(vals)) || (fresh(cols) && fresh(vals))
    {
      ghost var row := Entries();
      var space, old_size := cols.Length, length;
      var over := if space - old_size < n then n - (space - old_size) else 0;
      var tmp_j, tmp_data := new int[over], new real[over];
      var size: nat, tmp_indx: nat := old_size, 0;
      ghost var cur := row;
      for i := 0 to n
        invariant cols == old(cols) && vals == old(vals) && length == old_size
        invariant old_size <= size <= space && size - old_size + tmp_indx <= i
        invariant Split(cur, size, tmp_j, tmp_data, tmp_indx)
        invariant cur == PutAll(add, row, |row|, Stretch(cs, vs, indx, i))
      {
        var c, v := cs[indx + i], vs[indx + i];
        StretchSnoc(cs, vs, indx, i);
        PutAllSnoc(add, row, |row|, Stretch(cs, vs, indx, i), Entry(c, v));
        size, tmp_indx := PutOne(add, c, v, size, tmp_j, tmp_data, tmp_indx, cur);
        cur := Put(add, cur, old_size, Entry(c, v));
      }
      Finish(size, tmp_j, tmp_data, tmp_indx, cur);
    }

    /** Growing the row if the temporary arrays were used, and the new length. */
    method Finish(size: nat, tmp_j: array<int>, tmp_data: array<real>, tmp_indx: nat, ghost cur: seq<Entry>)
      requires Valid() && length <= size && tmp_j != cols && tmp_data != vals
      requires Split(cur, size, tmp_j, tmp_data, tmp_indx)
      modifies this, cols, vals
      ensures Valid() && Entries() == cur
      ensures (cols == old(cols) && vals == old(vals)) || (fresh(cols) && fresh(vals))
    {
      if tmp_indx > 0 {
        Grow(size + tmp_indx, size);
        assert forall k :: 0 <= k < size ==> cur[k] == Entry(cols[k], vals[k]);
        MoveIn(tmp_j, tmp_data, size, tmp_indx);
      }
      length := size + tmp_indx;
    }

    /** The row under construction: `size` entries in the buffer, the rest in the temporary arrays. */
    ghost predicate Split(cur: seq<Entry>, size: nat, tmp_j: array<int>, tmp_data: array<real>, tmp_indx: nat)
      requires Valid()
      reads this, cols, vals, tmp_j, tmp_data
    {
      && size <= cols.Length && tmp_indx <= tmp_j.Length == tmp_data.Length
      && (tmp_indx > 0 ==> size == cols.Length)
      && |cur| == size + tmp_indx
      && (forall k :: 0 <= k < size ==> cur[k] == Entry(cols[k], vals[k]))
      && (forall k :: size <= k < |cur| ==> cur[k] == Entry(tmp_j[k - size], tmp_data[k - size]))
    }

    method PutOne(add: bool, c: int, v: real, size0: nat, tmp_j: array<int>, tmp_data: array<real>, tmp0: nat,
                  ghost cur: seq<Entry>)
      returns (size: nat, tmp_indx: nat)
      requires Valid() && length <= size0 && tmp_j != cols && tmp_data != vals
      requires Split(cur, size0, tmp_j, tmp_data, tmp0) && (size0 == cols.Length ==> tmp0 < tmp_j.Length)
      modifies cols, vals, tmp_j, tmp_data
      ensures Valid() && size0 <= size <= cols.Length && size + tmp_indx <= size0 + tmp0 + 1
      ensures Split(Put(add, cur, length, Entry(c, v)), size, tmp_j, tmp_data, tmp_indx)
    {
      hide Find, Put;
      size, tmp_indx := size0, tmp0;
      var j := FindIn(cols, length, c);
      PutIs(add, cur, length, Entry(c, v), j);
      if j < length {
        vals[j] := if add then vals[j] + v else v;
      } else if size < cols.Length {
        cols[size], vals[size] := c, v;
        size := size + 1;
      } else {
        tmp_j[tmp_indx], tmp_data[tmp_indx] := c, v;
        tmp_indx := tmp_indx + 1;
      }
    }

    /** hypre_TReAlloc of both arrays: the first `keep` entries survive. */
    method Grow(space: nat, keep: nat)
      requires Valid() && keep <= cols.Length && keep <= space && length <= space
      modifies this
      ensures Valid() && length == old(length) && cols.Length == space
      ensures fresh(cols) && fresh(vals)
      ensures forall k :: 0 <= k < keep ==> cols[k] == old(cols[k]) && vals[k] == old(vals[k])
    {
      var c, v := new int[space], new real[space];
      for k := 0 to keep
        invariant cols == old(cols) && vals == old(vals) && length == old(length)
        invariant forall i :: 0 <= i < k ==> c[i] == cols[i] && v[i] == vals[i]
      {
        c[k], v[k] := cols[k], vals[k];
      }
      cols, vals := c, v;
    }

    method MoveIn(tmp_j: array<int>, tmp_data: array<real>, at: nat, n: nat)
      requires Valid() && at + n <= cols.Length && n <= tmp_j.Length && n <= tmp_data.Length
      requires tmp_j != cols && tmp_data != vals
      modifies cols, vals
      ensures Valid()
      ensures forall k :: 0 <= k < at ==> cols[k] == old(cols[k]) && vals[k] == old(vals[k])
      ensures forall k :: at <= k < at + n ==> cols[k] == tmp_j[k - at] && vals[k] == tmp_data[k - at]
    {
      for i := 0 to n
        invariant forall k :: 0 <= k < at ==> cols[k] == old(cols[k]) && vals[k] == old(vals[k])
        invariant forall k :: at <= k < at + i ==> cols[k] == tmp_j[k - at] && vals[k] == tmp_data[k - at]
      {
        cols[at + i], vals[at + i] := tmp_j[i], tmp_data[i];
      }
    }
  }

  /** The linear search of the setters. */
  method FindIn(a: array<int>, n: nat, c: int) returns (j: nat)
    requires n <= a.Length
    ensures j <= n && (j < n ==> a[j] == c)
    ensures forall k :: 0 <= k < j ==> a[k] != c
  {
    j := 0;
    while j < n && a[j] != c
      invariant j <= n && forall k :: 0 <= k < j ==> a[k] != c
    {
      j := j + 1;
    }
  }

  lemma {:induction false} FindIs(row: seq<Entry>, c: int, k: nat)
    requires k <= |row| && (k < |row| ==> row[k].col == c) && forall i :: 0 <= i < k ==> row[i].col != c
    ensures Find(row, c) == k
  {
    if row != [] && k > 0 { FindIs(row[1..], c, k - 1); }
  }

  lemma PutIs(add: bool, row: seq<Entry>, n: nat, u: Entry, k: nat)
    requires k <= n <= |row| && (k < n ==> row[k].col == u.col) && forall i :: 0 <= i < k ==> row[i].col != u.col
    ensures Put(add, row, n, u)
         == if k < n then row[k := Entry(u.col, Combine(add, row[k].val, u.val))] else row + [u]
  {
    FindIs(row[..n], u.col, k);
  }

  /** The entries given by n columns and values from position `from` on. */
  function Stretch(cs: seq<int>, vs: seq<real>, from: nat, n: nat): (r: seq<Entry>)
    requires from + n <= |cs| && from + n <= |vs|
    ensures |r| == n
    ensures forall i :: 0 <= i < n ==> r[i] == Entry(cs[from + i], vs[from + i])
  {
    seq(n, i requires 0 <= i < n => Entry(cs[from + i], vs[from + i]))
  }

  lemma StretchSnoc(cs: seq<int>, vs: seq<real>, from: nat, i: nat)
    requires from + i < |cs| && from + i < |vs|
    ensures Stretch(cs, vs, from, i + 1) == Stretch(cs, vs, from, i) + [Entry(cs[from + i], vs[from + i])]
  {}

  // ------------------------------------------------------------------ what an update means

  /** The in-order effect of an update on one column. */
  function Fold(add: bool, x: Option<real>, us: seq<Entry>, c: int): Option<real>
    decreases |us|
  {
    if us == [] then x
    else
      var y := if x.Some? then x.value else 0.0;
      Fold(add, if us[0].col == c then Some(Combine(add, y, us[0].val)) else x, us[1..], c)
  }

  /** No column occurs twice. */
  ghost predicate Distinct(cs: seq<int>) {
    cs == [] || (cs[0] !in cs[1..] && Distinct(cs[1..]))
  }

  /** No column of the update `us` that is new to the row `cs` occurs twice in `us`. */
  ghost predicate NewOnce(cs: seq<int>, us: seq<int>) {
    us == [] || ((us[0] in us[1..] ==> us[0] in cs) && NewOnce(cs, us[1..]))
  }

  lemma {:induction false} DistinctMeans(cs: seq<int>)
    ensures Distinct(cs) <==> forall i, j :: 0 <= i < j < |cs| ==> cs[i] != cs[j]
  {
    if cs != [] {
      DistinctMeans(cs[1..]);
      if forall i, j :: 0 <= i < j < |cs| ==> cs[i] != cs[j] {
        assert forall j :: 0 <= j < |cs[1..]| ==> cs[1..][j] == cs[j + 1];
      } else {
        var i, j :| 0 <= i < j < |cs| && cs[i] == cs[j];
        assert cs[j] == cs[1..][j - 1];
        if i > 0 { assert cs[i] == cs[1..][i - 1]; }
      }
    }
  }

  lemma {:induction false} DistinctOnce(cs: seq<int>, us: seq<int>)
    requires Distinct(us)
    ensures NewOnce(cs, us)
  {
    if us != [] { DistinctOnce(cs, us[1..]); }
  }

  lemma {:induction false} FindHas(row: seq<Entry>, c: int)
    ensures Find(row, c) < |row| <==> c in Cols(row)
  {
    if k :| 0 <= k < |row| && row[k].col == c { assert Cols(row)[k] == c; }
    if Find(row, c) < |row| { assert Cols(row)[Find(row, c)] == c; }
  }

  /** Put leaves the columns it finds where they are. */
  lemma PutCols(add: bool, row: seq<Entry>, n: nat, u: Entry)
    requires n <= |row|
    ensures var r := Put(add, row, n, u);
      && Cols(r) == Cols(row) + (if u.col in Cols(row[..n]) then [] else [u.col])
      && Cols(r[..n]) == Cols(row[..n])
  {
    FindHas(row[..n], u.col);
  }

  /** The values a row, or an update, holds for column c, in order. */
  function Vals(row: seq<Entry>, c: int): seq<real> {
    if |row| == 0 then [] else (if row[0].col == c then [row[0].val] else []) + Vals(row[1..], c)
  }

  lemma NoVals(row: seq<Entry>, c: int)
    ensures Vals(row[..0], c) == [] && (|row| == 0 ==> Vals(row, c) == [])
  {}

  lemma {:induction false} ValsConcat(a: seq<Entry>, b: seq<Entry>, c: int)
    ensures Vals(a + b, c) == Vals(a, c) + Vals(b, c)
  {
    if |a| == 0 {
      NothingBefore(a, b);
      NothingBefore(Vals(a, c), Vals(b, c));
    } else {
      hide Vals;
      var e, rest := a[0], a[1..];
      ValsConcat(rest, b, c);
      assert a == [e] + rest;
      Regroup([e], rest, b);
      ValsCons(e, rest, c);
      ValsCons(e, rest + b, c);
      Regroup(if e.col == c then [e.val] else [], Vals(rest, c), Vals(b, c));
    }
  }

  lemma {:induction false} ValsNone(row: seq<Entry>, c: int)
    ensures Vals(row, c) == [] <==> Find(row, c) == |row|
    ensures Vals(row, c) == [] <==> c !in Cols(row)
  {
    FindHas(row, c);
    if |row| > 0 { ValsNone(row[1..], c); }
  }

  /** Looking a column up finds its first value. */
  lemma {:induction false} AtIsFirst(row: seq<Entry>, c: int)
    ensures At(row, c) == if |Vals(row, c)| == 0 then None else Some(Vals(row, c)[0])
  {
    if |row| > 0 && row[0].col != c { AtIsFirst(row[1..], c); }
  }

  /** x after setting it to, or adding, the values vs one by one. */
  function Combined(add: bool, x: real, vs: seq<real>): real
    decreases |vs|
  {
    if |vs| == 0 then x else Combined(add, Combine(add, x, vs[0]), vs[1..])
  }

  lemma {:induction false} FoldIs(add: bool, x: Option<real>, us: seq<Entry>, c: int)
    ensures Fold(add, x, us, c)
         == if |Vals(us, c)| == 0 then x else Some(Combined(add, if x.Some? then x.value else 0.0, Vals(us, c)))
    decreases |us|
  {
    if |us| > 0 {
      if us[0].col == c {
        assert Vals(us, c)[0] == us[0].val && Vals(us, c)[1..] == Vals(us[1..], c);
        FoldIs(add, Some(Combine(add, if x.Some? then x.value else 0.0, us[0].val)), us[1..], c);
      } else {
        assert Vals(us, c) == Vals(us[1..], c);
        FoldIs(add, x, us[1..], c);
      }
    }
  }

  /** What an update that gives the values vs to a column makes of the values xs a row holds for it: the
      first one it had takes them all in; a column the row lacked is appended once for each of them. */
  function Taken(add: bool, xs: seq<real>, vs: seq<real>): seq<real> {
    if |xs| == 0 then vs else [Combined(add, xs[0], vs)] + xs[1..]
  }

  lemma ValsCons(e: Entry, row: seq<Entry>, c: int)
    ensures Vals([e] + row, c) == (if e.col == c then [e.val] else []) + Vals(row, c)
  {
    assert ([e] + row)[1..] == row;
  }

  lemma CombinedOne(add: bool, x: real, v: real, vs: seq<real>)
    ensures Combined(add, x, [v] + vs) == Combined(add, Combine(add, x, v), vs)
    ensures Combined(add, x, [v]) == Combine(add, x, v)
  {
    assert ([v] + vs)[1..] == vs && [v][1..] == [];
  }

  /** The values of column c after Put. */
  lemma PutVals(add: bool, row: seq<Entry>, n: nat, u: Entry, c: int)
    requires n <= |row|
    ensures Vals(Put(add, row, n, u), c)
         == if u.col != c then Vals(row, c)
            else if |Vals(row[..n], c)| == 0 then Vals(row, c) + [u.val]
            else Taken(add, Vals(row, c), [u.val])
  {
    hide Vals, Combined, Find;
    var k := Find(row[..n], u.col);
    ValsNone(row[..n], u.col);
    if k < n {
      var a, b, e := row[..k], row[k + 1..], Entry(u.col, Combine(add, row[k].val, u.val));
      assert row == a + ([row[k]] + b) && Put(add, row, n, u) == a + ([e] + b);
      ValsConcat(a, [row[k]] + b, c);
      ValsConcat(a, [e] + b, c);
      ValsCons(row[k], b, c);
      ValsCons(e, b, c);
      assert forall i :: 0 <= i < k ==> a[i] == row[..n][i];
      FindIs(a, u.col, k);
      ValsNone(a, u.col);
      CombinedOne(add, row[k].val, u.val, []);
    } else {
      ValsConcat(row, [u], c);
      ValsCons(u, [], c);
      ValsNone([], c);
      assert [u] + [] == [u];
    }
  }

  lemma PutFront(add: bool, row: seq<Entry>, n: nat, u: Entry, c: int)
    requires n <= |row|
    ensures |Vals(Put(add, row, n, u)[..n], c)| == 0 <==> |Vals(row[..n], c)| == 0
  {
    PutCols(add, row, n, u);
    ValsNone(row[..n], c);
    ValsNone(Put(add, row, n, u)[..n], c);
  }

  lemma {:induction false} PutAllVals(add: bool, row: seq<Entry>, n: nat, us: seq<Entry>, c: int)
    requires n <= |row|
    ensures Vals(PutAll(add, row, n, us), c)
         == if |Vals(row[..n], c)| == 0 then Vals(row, c) + Vals(us, c) else Taken(add, Vals(row, c), Vals(us, c))
    decreases |us|
  {
    FrontHas(row, n, c);
    if |us| == 0 {
      assert Vals(row, c) + [] == Vals(row, c);
      if |Vals(row, c)| > 0 { assert [Vals(row, c)[0]] + Vals(row, c)[1..] == Vals(row, c); }
    } else {
      hide Vals, Put;
      var u, rest := us[0], us[1..];
      assert us == [u] + rest;
      ValsCons(u, rest, c);
      PutVals(add, row, n, u, c);
      PutFront(add, row, n, u, c);
      PutAllVals(add, Put(add, row, n, u), n, rest, c);
      TakenNext(add, Vals(row, c), u.val, Vals(rest, c));
      assert [] + Vals(rest, c) == Vals(rest, c);
    }
  }

  lemma TakenNext(add: bool, xs: seq<real>, v: real, vs: seq<real>)
    ensures |xs| > 0 ==> Taken(add, Taken(add, xs, [v]), vs) == Taken(add, xs, [v] + vs)
    ensures xs + [v] + vs == xs + ([v] + vs)
  {
    if |xs| > 0 { CombinedOne(add, xs[0], v, vs); }
  }

  lemma FrontHas(row: seq<Entry>, n: nat, c: int)
    requires n <= |row|
    ensures |Vals(row[..n], c)| > 0 ==> |Vals(row, c)| > 0
  {
    assert row == row[..n] + row[n..];
    ValsConcat(row[..n], row[n..], c);
  }

  /** The values of every column after an update, whatever it repeats. */
  lemma RowUpdateVals(add: bool, row: seq<Entry>, us: seq<Entry>, c: int)
    ensures Vals(RowUpdate(add, row, us), c) == Taken(add, Vals(row, c), Vals(us, c))
  {
    assert row[..|row|] == row;
    PutAllVals(add, row, |row|, us, c);
    if |Vals(row, c)| == 0 { assert [] + Vals(us, c) == Vals(us, c); }
  }

  /** An update does to each column the row has exactly what its entries say, in order; of the values it gives
      to a column the row lacks, a look-up finds the first. */
  lemma RowUpdateAt(add: bool, row: seq<Entry>, us: seq<Entry>, c: int)
    ensures At(RowUpdate(add, row, us), c) == if c in Cols(row) then Fold(add, At(row, c), us, c) else At(us, c)
  {
    RowUpdateVals(add, row, us, c);
    ValsNone(row, c);
    AtIsFirst(row, c);
    AtIsFirst(us, c);
    AtIsFirst(RowUpdate(add, row, us), c);
    FoldIs(add, At(row, c), us, c);
  }

  /** A column an update gives at most once to a row that lacks it is looked up as given. */
  lemma FoldOnce(add: bool, us: seq<Entry>, c: int)
    requires |Vals(us, c)| <= 1
    ensures Fold(add, None, us, c) == At(us, c)
  {
    FoldIs(add, None, us, c);
    AtIsFirst(us, c);
  }

  lemma {:induction false} NewOnceVals(cs: seq<int>, us: seq<Entry>, c: int)
    requires NewOnce(cs, Cols(us)) && c !in cs
    ensures |Vals(us, c)| <= 1
  {
    if |us| > 0 {
      assert Cols(us)[1..] == Cols(us[1..]);
      NewOnceVals(cs, us[1..], c);
      ValsNone(us[1..], c);
    }
  }

  /** The columns an update appends: those of `us` the row lacks, in order and as often as they occur. */
  function NewCols(cs: seq<int>, us: seq<int>): seq<int> {
    if us == [] then [] else (if us[0] in cs then [] else [us[0]]) + NewCols(cs, us[1..])
  }

  lemma {:induction false} PutAllCols(add: bool, row: seq<Entry>, n: nat, us: seq<Entry>)
    requires n <= |row|
    ensures Cols(PutAll(add, row, n, us)) == Cols(row) + NewCols(Cols(row[..n]), Cols(us))
    decreases |us|
  {
    hide Put;
    if us != [] {
      var r := Put(add, row, n, us[0]);
      PutCols(add, row, n, us[0]);
      assert Cols(us)[1..] == Cols(us[1..]);
      PutAllCols(add, r, n, us[1..]);
    }
  }

  lemma {:induction false} NewColsHas(cs: seq<int>, us: seq<int>, c: int)
    ensures c in NewCols(cs, us) <==> c in us && c !in cs
  {
    if us != [] { NewColsHas(cs, us[1..], c); }
  }

  lemma {:induction false} NewColsDistinct(cs: seq<int>, us: seq<int>)
    ensures Distinct(NewCols(cs, us)) <==> NewOnce(cs, us)
  {
    if us != [] {
      NewColsDistinct(cs, us[1..]);
      NewColsHas(cs, us[1..], us[0]);
      var rest := NewCols(cs, us[1..]);
      if us[0] in cs {
        assert NewCols(cs, us) == rest;
      } else {
        assert NewCols(cs, us)[0] == us[0] && NewCols(cs, us)[1..] == rest;
      }
    }
  }

  lemma {:induction false} DistinctAppend(a: seq<int>, b: seq<int>)
    requires Distinct(a) && forall c :: c in a ==> c !in b
    ensures Distinct(a + b) <==> Distinct(b)
  {
    if a == [] {
      assert a + b == b;
    } else {
      assert (a + b)[0] == a[0] && (a + b)[1..] == a[1..] + b;
      assert a[0] in a && a[0] !in b;
      DistinctAppend(a[1..], b);
    }
  }

  /** A row with distinct columns keeps them distinct exactly when the update names no new column
      twice: the search does not see what the same update appended. */
  lemma RowUpdateDistinct(add: bool, row: seq<Entry>, us: seq<Entry>)
    requires Distinct(Cols(row))
    ensures Distinct(Cols(RowUpdate(add, row, us))) <==> NewOnce(Cols(row), Cols(us))
  {
    assert row[..|row|] == row;
    PutAllCols(add, row, |row|, us);
    forall c | c in Cols(row) ensures c !in NewCols(Cols(row), Cols(us)) { NewColsHas(Cols(row), Cols(us), c); }
    DistinctAppend(Cols(row), NewCols(Cols(row), Cols(us)));
    NewColsDistinct(Cols(row), Cols(us));
  }

  /** Columns a row names twice stay so. */
  lemma RepeatsStay(add: bool, row: seq<Entry>, us: seq<Entry>)
    requires !Distinct(Cols(row))
    ensures !Distinct(Cols(RowUpdate(add, row, us)))
  {
    assert row[..|row|] == row;
    PutAllCols(add, row, |row|, us);
    var cs, all := Cols(row), Cols(RowUpdate(add, row, us));
    DistinctMeans(cs);
    DistinctMeans(all);
    assert forall i :: 0 <= i < |cs| ==> all[i] == cs[i];
  }
}
