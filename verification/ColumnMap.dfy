/** hypre_IJMatrixAssembleParCSR, second half: the columns in `offd` are replaced by their positions in an
    ordered list without repetitions, col_map_offd. */
module ColumnMap {
  import opened SparseRows
  import opened Assembly
  import opened Sorting

  ghost predicate Increasing(s: seq<int>) {
    forall i, j :: 0 <= i < j < |s| ==> s[i] < s[j]
  }

  ghost predicate Sorted(s: seq<int>) {
    forall i, j :: 0 <= i < j < |s| ==> s[i] <= s[j]
  }

  /** The first i + 1 numbers without those that repeat their predecessor. */
  ghost function Dedup(s: seq<int>, i: nat): (r: seq<int>)
    requires i < |s|
    ensures 1 <= |r| <= i + 1
  {
    if i == 0 then [s[0]] else Dedup(s, i - 1) + (if s[i] > s[i - 1] then [s[i]] else [])
  }

  lemma {:induction false} DedupIncreasing(s: seq<int>, i: nat)
    requires Sorted(s) && i < |s|
    ensures Increasing(Dedup(s, i)) && Dedup(s, i)[|Dedup(s, i)| - 1] == s[i]
  {
    if i > 0 { DedupIncreasing(s, i - 1); }
  }

  lemma {:induction false} DedupHas(s: seq<int>, i: nat, x: int)
    requires Sorted(s) && i < |s|
    ensures x in Dedup(s, i) <==> x in s[..i + 1]
  {
    if i > 0 {
      DedupHas(s, i - 1, x);
      DedupIncreasing(s, i - 1);
      assert s[..i + 1] == s[..i] + [s[i]];
      assert s[i - 1] in s[..i];
    }
  }

  /** Removing repetitions from a sorted array, in place: no cell is overwritten before it is read. */
  method Unique(aux_offd_j: array<int>) returns (num_cols_offd: nat)
    requires aux_offd_j.Length > 0
    modifies aux_offd_j
    ensures num_cols_offd <= aux_offd_j.Length
    ensures aux_offd_j[..num_cols_offd] == Dedup(old(aux_offd_j[..]), aux_offd_j.Length - 1)
    ensures old(Sorted(aux_offd_j[..])) ==> Increasing(aux_offd_j[..num_cols_offd])
    ensures old(Sorted(aux_offd_j[..])) ==> forall x :: x in aux_offd_j[..num_cols_offd] <==> x in old(aux_offd_j[..])
  {
    ghost var s := aux_offd_j[..];
    num_cols_offd := 1;
    var i := 0;
    while i < aux_offd_j.Length - 1
      invariant 1 <= num_cols_offd <= i + 1 <= aux_offd_j.Length
      invariant forall k :: i <= k < |s| ==> aux_offd_j[k] == s[k]
      invariant aux_offd_j[..num_cols_offd] == Dedup(s, i)
    {
      ghost var before := aux_offd_j[..num_cols_offd];
      if aux_offd_j[i + 1] > aux_offd_j[i] {
        aux_offd_j[num_cols_offd] := aux_offd_j[i + 1];
        num_cols_offd := num_cols_offd + 1;
        assert aux_offd_j[..num_cols_offd] == before + [s[i + 1]];
      }
      i := i + 1;
    }
    if Sorted(s) { DedupIs(s); }
  }

  /** For a sorted list. */
  lemma DedupIs(s: seq<int>)
    requires Sorted(s) && |s| > 0
    ensures Increasing(Dedup(s, |s| - 1)) && forall x :: x in Dedup(s, |s| - 1) <==> x in s
  {
    hide Dedup, Increasing, Sorted;
    var d := Dedup(s, |s| - 1);
    DedupIncreasing(s, |s| - 1);
    forall x ensures x in d <==> x in s {
      DedupHas(s, |s| - 1, x);
      assert s[..|s| - 1 + 1] == s;
    }
  }

  /** hypre_BinarySearch. */
  method BinarySearch(list: seq<int>, value: int) returns (m: int)
    requires Increasing(list)
    ensures if value in list then 0 <= m < |list| && list[m] == value else m == -1
  {
    var low, high := 0, |list| - 1;
    while low <= high
      invariant 0 <= low <= high + 1 <= |list|
      invariant forall k :: 0 <= k < low ==> list[k] < value
      invariant forall k :: high < k < |list| ==> value < list[k]
    {
      m := (low + high) / 2;
      if value < list[m] {
        high := m - 1;
      } else if value > list[m] {
        low := m + 1;
      } else {
        return;
      }
    }
    m := -1;
  }

  /** The column a position stands for. */
  function Decode(col_map: seq<int>, base: int, j: int): int { if 0 <= j < |col_map| then col_map[j] + base else 0 }

  function Decoded(cells: seq<Entry>, col_map: seq<int>, base: int): (r: seq<Entry>)
    ensures |r| == |cells|
      && forall k :: 0 <= k < |cells| ==> r[k] == Entry(Decode(col_map, base, cells[k].col), cells[k].val)
  {
    seq(|cells|, k requires 0 <= k < |cells| => Entry(Decode(col_map, base, cells[k].col), cells[k].val))
  }

  ghost predicate InMap(cells: seq<Entry>, col_map: seq<int>) {
    forall k :: 0 <= k < |cells| ==> 0 <= cells[k].col < |col_map|
  }

  /** A copy of the columns, sorted by hypre_qsort0. */
  method SortedCopy(js: seq<int>) returns (sorted: array<int>)
    ensures fresh(sorted) && sorted.Length == |js| && Sorted(sorted[..])
    ensures forall x :: x in sorted[..] <==> x in js
  {
    var cells := new Keyed<()>[|js|](k requires 0 <= k < |js| => Keyed(js[k], ()));
    ghost var before := cells[..];
    assert forall k :: 0 <= k < |js| ==> before[k] == Keyed(js[k], ());
    Quicksort(cells, 0, cells.Length - 1);
    ghost var after := cells[..];
    sorted := new int[|js|](k requires 0 <= k < |js| reads cells => if k < cells.Length then cells[k].key else 0);
    assert forall k :: 0 <= k < |js| ==> sorted[..][k] == after[k].key;
    forall x ensures x in sorted[..] <==> x in js {
      CountHas(before, 0, |js|, Keyed(x, ()));
      CountHas(after, 0, |js|, Keyed(x, ()));
      KeysHas(before, js, x);
      KeysHas(after, sorted[..], x);
    }
  }

  lemma KeysHas(cells: seq<Keyed<()>>, keys: seq<int>, x: int)
    requires |cells| == |keys| && forall k :: 0 <= k < |cells| ==> cells[k].key == keys[k]
    ensures x in keys <==> exists i :: 0 <= i < |cells| && cells[i] == Keyed(x, ())
  {
    if k :| 0 <= k < |keys| && keys[k] == x { assert cells[k] == Keyed(x, cells[k].val) && cells[k].val == (); }
  }

  /** The distinct columns, in order. */
  method Columns(js: seq<int>) returns (cols: seq<int>)
    requires js != []
    ensures Increasing(cols) && forall x :: x in cols <==> x in js
  {
    var aux_offd_j := SortedCopy(js);
    var num_cols_offd := Unique(aux_offd_j);
    cols := aux_offd_j[..num_cols_offd];
  }

  /** Generating col_map_offd. */
  method Compress(offd: CsrPart, base: int) returns (col_map_offd: seq<int>)
    requires offd.Valid()
    modifies offd.j
    ensures Increasing(col_map_offd) && InMap(offd.Cells(), col_map_offd)
    ensures Decoded(offd.Cells(), col_map_offd, base) == old(offd.Cells())
    ensures forall x :: x in col_map_offd <==> x + base in old(offd.j[..])
  {
    if offd.j.Length == 0 { return []; }
    col_map_offd := Columns(offd.j[..]);
    Reindex(offd, col_map_offd);
    col_map_offd := Rebase(col_map_offd, base);
  }

  /** Every column becomes its position in the list. */
  method Reindex(offd: CsrPart, cols: seq<int>)
    requires offd.Valid() && Increasing(cols) && forall x :: x in offd.j[..] ==> x in cols
    modifies offd.j
    ensures InMap(offd.Cells(), cols) && Decoded(offd.Cells(), cols, 0) == old(offd.Cells())
  {
    for i := 0 to offd.j.Length
      invariant forall k :: 0 <= k < i ==> 0 <= offd.j[k] < |cols| && cols[offd.j[k]] == old(offd.j[k])
      invariant forall k :: i <= k < offd.j.Length ==> offd.j[k] == old(offd.j[k])
    {
      assert offd.j[i] in old(offd.j[..]);
      offd.j[i] := BinarySearch(cols, offd.j[i]);
    }
  }

  method Rebase(cols: seq<int>, base: int) returns (r: seq<int>)
    ensures |r| == |cols| && forall k :: 0 <= k < |r| ==> r[k] == cols[k] - base
  {
    r := cols;
    if base != 0 {
      for i := 0 to |cols|
        invariant |r| == |cols|
        invariant forall k :: 0 <= k < i ==> r[k] == cols[k] - base
        invariant forall k :: i <= k < |r| ==> r[k] == cols[k]
      {
        r := r[i := r[i] - base];
      }
    }
  }
}
