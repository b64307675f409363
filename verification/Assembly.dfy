module Assembly {
  // hypre_IJMatrixAssembleParCSR: moving the row buffers into two CSR matrices, `diag` for the columns
  // the processor owns (shifted to start at 0, each row's diagonal entry first) and `offd` for the rest.

  import opened Basics
  import opened SparseRows
  import opened Blocks
  import opened AuxMatrix

  // ------------------------------------------------------------------ the sequential CSR, row by row

  predicate Owned(col: int, col_0: int, col_n: int) { !(col < col_0 || col > col_n) }

  /** The last of the first k positions that holds row i's diagonal entry, or -1. */
  function DiagPos(row: seq<Entry>, i: int, col_0: int, col_n: int, k: nat): (p: int)
    requires k <= |row|
    ensures -1 <= p < k
    ensures p >= 0 ==> Owned(row[p].col, col_0, col_n) && row[p].col - col_0 == i
  {
    if k == 0 then -1
    else if Owned(row[k - 1].col, col_0, col_n) && row[k - 1].col - col_0 == i then k - 1
    else DiagPos(row, i, col_0, col_n, k - 1)
  }

  function Shift(e: Entry, col_0: int): Entry { Entry(e.col - col_0, e.val) }

  /** The owned entries among the first k, without the one at position p, in order. */
  function DiagRest(row: seq<Entry>, p: int, col_0: int, col_n: int, k: nat): seq<Entry>
    requires k <= |row|
  {
    if k == 0 then []
    else DiagRest(row, p, col_0, col_n, k - 1)
         + (if Owned(row[k - 1].col, col_0, col_n) && k - 1 != p then [Shift(row[k - 1], col_0)] else [])
  }

  function DiagHead(row: seq<Entry>, i: int, col_0: int, col_n: int): seq<Entry> {
    var p := DiagPos(row, i, col_0, col_n, |row|);
    if p >= 0 then [Shift(row[p], col_0)] else []
  }

  function DiagRow(row: seq<Entry>, i: int, col_0: int, col_n: int): seq<Entry> {
    DiagHead(row, i, col_0, col_n) + DiagRest(row, DiagPos(row, i, col_0, col_n, |row|), col_0, col_n, |row|)
  }

  /** The entries of the first k whose columns belong to other processors, in order. */
  function OffdRow(row: seq<Entry>, col_0: int, col_n: int, k: nat): seq<Entry>
    requires k <= |row|
  {
    if k == 0 then []
    else OffdRow(row, col_0, col_n, k - 1) + (if Owned(row[k - 1].col, col_0, col_n) then [] else [row[k - 1]])
  }

  /** How often x occurs. */
  ghost function Times<T>(s: seq<T>, x: T): nat {
    if |s| == 0 then 0 else Times(s[..|s| - 1], x) + (if s[|s| - 1] == x then 1 else 0)
  }

  lemma TimesMore<T>(s: seq<T>, there: bool, y: T, x: T)
    ensures Times(s + (if there then [y] else []), x) == Times(s, x) + if there && y == x then 1 else 0
  {
    if there { assert (s + [y])[..|s|] == s; } else { assert s + [] == s; }
  }

  lemma {:induction false} TimesConcat<T>(a: seq<T>, b: seq<T>, x: T)
    ensures Times(a + b, x) == Times(a, x) + Times(b, x)
    decreases |b|
  {
    if |b| == 0 {
      assert a + b == a;
    } else {
      assert (a + b)[..|a + b| - 1] == a + b[..|b| - 1];
      TimesConcat(a, b[..|b| - 1], x);
    }
  }

  lemma TimesUpTo<T>(s: seq<T>, k: nat, x: T)
    requires k < |s|
    ensures Times(s[..k + 1], x) == Times(s[..k], x) + if s[k] == x then 1 else 0
  {
    assert s[..k + 1] == s[..k] + (if true then [s[k]] else []);
    TimesMore(s[..k], true, s[k], x);
  }

  /** The diag part has exactly the entries with columns from col_0 to col_n, shifted, each as often as the row has
      them, and no others ... */
  lemma DiagRowHas(row: seq<Entry>, i: int, col_0: int, col_n: int, e: Entry)
    ensures Times(DiagRow(row, i, col_0, col_n), Entry(e.col - col_0, e.val))
      == if col_0 <= e.col <= col_n then Times(row, e) else 0
  {
    var p := DiagPos(row, i, col_0, col_n, |row|);
    var head, rest := DiagHead(row, i, col_0, col_n), DiagRest(row, p, col_0, col_n, |row|);
    var e' := Entry(e.col - col_0, e.val);
    TimesConcat(head, rest, e');
    TimesMore([], p >= 0, if p >= 0 then Shift(row[p], col_0) else e', e');
    assert [] + head == head;
    DiagRestHas(row, p, col_0, col_n, |row|, e);
    assert row[..|row|] == row;
  }

  lemma NoTimes<T>(s: seq<T>, x: T)
    ensures Times(s[..0], x) == 0 && (|s| == 0 ==> Times(s, x) == 0)
  {}

  lemma {:induction false} DiagRestHas(row: seq<Entry>, p: int, col_0: int, col_n: int, k: nat, e: Entry)
    requires k <= |row| && -1 <= p < |row| && (p >= 0 ==> col_0 <= row[p].col <= col_n)
    ensures Times(DiagRest(row, p, col_0, col_n, k), Entry(e.col - col_0, e.val))
      + (if 0 <= p < k && row[p] == e then 1 else 0)
      == if col_0 <= e.col <= col_n then Times(row[..k], e) else 0
  {
    hide Times;
    if k == 0 {
      NoTimes(row, e);
      NoTimes<Entry>([], Entry(e.col - col_0, e.val));
    } else {
      DiagRestHas(row, p, col_0, col_n, k - 1, e);
      TimesUpTo(row, k - 1, e);
      var x := row[k - 1];
      TimesMore(DiagRest(row, p, col_0, col_n, k - 1), Owned(x.col, col_0, col_n) && k - 1 != p, Shift(x, col_0),
                Entry(e.col - col_0, e.val));
    }
  }

  /** ... and the offd part exactly the others. */
  lemma {:induction false} OffdRowHas(row: seq<Entry>, col_0: int, col_n: int, k: nat, e: Entry)
    requires k <= |row|
    ensures Times(OffdRow(row, col_0, col_n, k), e) == if col_0 <= e.col <= col_n then 0 else Times(row[..k], e)
  {
    if k > 0 {
      OffdRowHas(row, col_0, col_n, k - 1, e);
      TimesUpTo(row, k - 1, e);
      TimesMore(OffdRow(row, col_0, col_n, k - 1), !Owned(row[k - 1].col, col_0, col_n), row[k - 1], e);
    }
  }

  /** The rows of the two parts. */
  function DiagRows(m: seq<seq<Entry>>, col_0: int, col_n: int): (r: seq<seq<Entry>>)
    ensures |r| == |m| && forall i :: 0 <= i < |m| ==> r[i] == DiagRow(m[i], i, col_0, col_n)
  {
    seq(|m|, i requires 0 <= i < |m| => DiagRow(m[i], i, col_0, col_n))
  }

  function OffdRows(m: seq<seq<Entry>>, col_0: int, col_n: int): (r: seq<seq<Entry>>)
    ensures |r| == |m| && forall i :: 0 <= i < |m| ==> r[i] == OffdRow(m[i], col_0, col_n, |m[i]|)
  {
    seq(|m|, i requires 0 <= i < |m| => OffdRow(m[i], col_0, col_n, |m[i]|))
  }

  function Lens(parts: seq<seq<Entry>>): (r: seq<nat>)
    ensures |r| == |parts| && forall i :: 0 <= i < |parts| ==> r[i] == |parts[i]|
  {
    seq(|parts|, i requires 0 <= i < |parts| => |parts[i]|)
  }

  /** All rows one after the other. */
  function Flatten(parts: seq<seq<Entry>>): seq<Entry> {
    if parts == [] then [] else Flatten(parts[..|parts| - 1]) + parts[|parts| - 1]
  }

  // ------------------------------------------------------------------ counting

  lemma {:induction false} DiagRestLength(row: seq<Entry>, p: int, q: int, col_0: int, col_n: int, k: nat)
    requires k <= |row| && -1 <= p && q == -1 && (p >= 0 ==> p < |row| && Owned(row[p].col, col_0, col_n))
    ensures |DiagRest(row, q, col_0, col_n, k)| == |DiagRest(row, p, col_0, col_n, k)| + (if 0 <= p < k then 1 else 0)
  {
    if k > 0 { DiagRestLength(row, p, q, col_0, col_n, k - 1); }
  }

  /** The first loop over one row. */
  method CountRow(row: seq<Entry>, i: int, col_0: int, col_n: int) returns (diags: nat, offds: nat, pos: int)
    ensures diags == |DiagRow(row, i, col_0, col_n)|
    ensures offds == |OffdRow(row, col_0, col_n, |row|)|
    ensures pos == DiagPos(row, i, col_0, col_n, |row|)
  {
    diags, offds, pos := 0, 0, -1;
    for j := 0 to |row|
      invariant diags == |DiagRest(row, -1, col_0, col_n, j)|
      invariant offds == |OffdRow(row, col_0, col_n, j)|
      invariant pos == DiagPos(row, i, col_0, col_n, j)
    {
      if row[j].col < col_0 || row[j].col > col_n {
        offds := offds + 1;
      } else {
        diags := diags + 1;
        if row[j].col - col_0 == i { pos := j; }
      }
    }
    DiagRestLength(row, pos, -1, col_0, col_n, |row|);
  }

  /** What each thread has counted so far: the entries of its rows up to the one it stands at. */
  ghost predicate Counted(counts: seq<nat>, lo: seq<nat>, pos: seq<nat>, c: seq<nat>) {
    && |lo| == |pos| == |c|
    && forall t :: 0 <= t < |lo| ==>
         lo[t] <= |counts| && pos[t] <= |counts| && Prefix(counts, lo[t]) + c[t] == Prefix(counts, pos[t])
  }

  lemma CountedNext(counts: seq<nat>, lo: seq<nat>, pos: seq<nat>, c: seq<nat>, t: nat)
    requires Counted(counts, lo, pos, c) && t < |pos| && pos[t] < |counts|
    ensures Counted(counts, lo, pos[t := pos[t] + 1], c[t := c[t] + counts[pos[t]]])
  {}

  ghost predicate PosRight(m: seq<seq<Entry>>, col_0: int, col_n: int, diag_pos: seq<int>, done: set<nat>) {
    && |diag_pos| == |m|
    && forall i :: i in done ==> i < |m| && diag_pos[i] == DiagPos(m[i], i, col_0, col_n, |m[i]|)
  }

  /** Thread t counts its next row. */
  method CountTurn(m: seq<seq<Entry>>, col_0: int, col_n: int, ghost nd: seq<nat>, ghost no: seq<nat>,
                   ghost lo: seq<nat>, pos: seq<nat>, t: nat, ghost done: set<nat>, diag_pos: seq<int>,
                   diag_array: seq<nat>, offd_array: seq<nat>)
    returns (diag_pos': seq<int>, diag_array': seq<nat>, offd_array': seq<nat>)
    requires nd == Lens(DiagRows(m, col_0, col_n)) && no == Lens(OffdRows(m, col_0, col_n))
    requires t < |pos| && pos[t] < |m| && PosRight(m, col_0, col_n, diag_pos, done)
    requires Counted(nd, lo, pos, diag_array) && Counted(no, lo, pos, offd_array)
    ensures PosRight(m, col_0, col_n, diag_pos', done + {pos[t]})
    ensures Counted(nd, lo, pos[t := pos[t] + 1], diag_array') && Counted(no, lo, pos[t := pos[t] + 1], offd_array')
  {
    var i := pos[t];
    var diags, offds, p := CountRow(m[i], i, col_0, col_n);
    assert diags == nd[i] && offds == no[i];
    CountedNext(nd, lo, pos, diag_array, t);
    CountedNext(no, lo, pos, offd_array, t);
    diag_pos' := diag_pos[i := p];
    diag_array', offd_array' := diag_array[t := diag_array[t] + diags], offd_array[t := offd_array[t] + offds];
  }

  /** Up to the first barrier: the threads, in any interleaving of their rows, count their entries and
      note the diagonal positions. */
  method CountRows(m: seq<seq<Entry>>, col_0: int, col_n: int, lo: seq<nat>, hi: seq<nat>)
    returns (diag_pos: seq<int>, diag_array: seq<nat>, offd_array: seq<nat>)
    requires Chained(lo, hi, 0, |m|)
    ensures PosRight(m, col_0, col_n, diag_pos, Below(|m|))
    ensures Counted(Lens(DiagRows(m, col_0, col_n)), lo, hi, diag_array)
    ensures Counted(Lens(OffdRows(m, col_0, col_n)), lo, hi, offd_array)
  {
    ghost var nd, no := Lens(DiagRows(m, col_0, col_n)), Lens(OffdRows(m, col_0, col_n));
    diag_pos := seq(|m|, _ => 0);
    diag_array, offd_array := seq(|lo|, _ => 0), seq(|lo|, _ => 0);
    var pos := lo;
    ghost var done: set<nat> := {};
    StandingStart(|m|, lo, hi);
    BlocksWithin(lo, hi, |m|);
    while exists t :: 0 <= t < |lo| && pos[t] < hi[t]
      invariant Standing(|m|, lo, pos, hi) && DoneSoFar(lo, pos, done)
      invariant Counted(nd, lo, pos, diag_array) && Counted(no, lo, pos, offd_array)
      invariant PosRight(m, col_0, col_n, diag_pos, done)
      decreases Below(|m|) - done
    {
      var t :| 0 <= t < |lo| && pos[t] < hi[t];
      StandingNext(|m|, lo, pos, hi, done, t);
      diag_pos, diag_array, offd_array :=
        CountTurn(m, col_0, col_n, nd, no, lo, pos, t, done, diag_pos, diag_array, offd_array);
      done := done + {pos[t]};
      pos := pos[t := pos[t] + 1];
    }
    AllDone(|m|, lo, pos, hi, done);
  }

  lemma BlocksWithin(lo: seq<nat>, hi: seq<nat>, n: nat)
    requires Chained(lo, hi, 0, n)
    ensures |lo| == |hi| && forall t :: 0 <= t < |lo| ==> lo[t] <= hi[t] <= n
  {
    forall t | 0 <= t < |lo| ensures lo[t] <= hi[t] <= n { BlockWithin(lo, hi, 0, n, t); }
  }

  /** Between the barriers: thread 0 turns the threads' counts into running totals. */
  method RunningTotals(c: seq<nat>, ghost counts: seq<nat>, ghost lo: seq<nat>, ghost hi: seq<nat>)
    returns (totals: seq<nat>)
    requires 1 <= |c| && Chained(lo, hi, 0, |counts|) && Counted(counts, lo, hi, c)
    ensures |totals| == |c| && forall t :: 0 <= t < |c| ==> hi[t] <= |counts| && totals[t] == Prefix(counts, hi[t])
    ensures totals[|c| - 1] == Prefix(counts, |counts|)
  {
    totals := c;
    var sum := 0;
    for i := 0 to |c|
      invariant |totals| == |c| && forall t :: 0 <= t < i ==> totals[t] == Prefix(counts, hi[t])
      invariant forall t :: i <= t < |c| ==> totals[t] == c[t]
      invariant if i == 0 then sum == 0 else sum == totals[i - 1]
    {
      if i > 0 { BlocksInOrder(lo, hi, 0, |counts|, i - 1, i); }
      sum := sum + totals[i];
      totals := totals[i := sum];
    }
    LastBlock(lo, hi, 0, |counts|);
  }

  /** After the second barrier: where each thread starts to fill. */
  method FillStarts(totals: seq<nat>, ghost counts: seq<nat>, ghost lo: seq<nat>, ghost hi: seq<nat>)
    returns (starts: seq<nat>)
    requires |totals| == |lo| && Chained(lo, hi, 0, |counts|)
    requires forall t :: 0 <= t < |lo| ==> hi[t] <= |counts| && totals[t] == Prefix(counts, hi[t])
    ensures AtOffsets(counts, lo, starts)
  {
    starts := [];
    while |starts| < |totals|
      invariant |starts| <= |totals|
        && forall t :: 0 <= t < |starts| ==> lo[t] <= |counts| && starts[t] == Prefix(counts, lo[t])
    {
      var t := |starts|;
      if t > 0 { BlocksInOrder(lo, hi, 0, |counts|, t - 1, t); }
      starts := starts + [if t > 0 then totals[t - 1] else 0];
    }
  }

  // ------------------------------------------------------------------ filling

  /** The row pointers, columns and values of one CSR matrix. */
  class CsrPart {
    const i: array<int>
    const j: array<int>
    const data: array<real>

    ghost predicate Valid() { j.Length == data.Length && i != j }

    ghost function Cells(): (s: seq<Entry>)
      requires Valid()
      reads j, data
      ensures |s| == j.Length
    {
      seq(j.Length, k requires 0 <= k < j.Length && Valid() reads j, data => Entry(j[k], data[k]))
    }

    constructor (rows: nat, nnz: nat)
      ensures Valid() && |Cells()| == nnz && i.Length == rows + 1 && i[rows] == nnz
      ensures fresh(i) && fresh(j) && fresh(data)
    {
      i := new int[rows + 1];
      j := new int[nnz];
      data := new real[nnz];
      new;
      i[rows] := nnz;
    }

    /** Storing the next entry of a stretch that starts at position lo. */
    method Append(k: nat, c: int, v: real, ghost base: seq<Entry>, ghost lo: nat, ghost es: seq<Entry>)
      requires Valid() && lo + |es| == k < |base|
      requires Cells() == Overwrite(base, lo, es)
      modifies j, data
      ensures Cells() == Overwrite(base, lo, es + [Entry(c, v)])
    {
      OverwriteSnoc(base, lo, es, Entry(c, v));
      j[k], data[k] := c, v;
      assert Cells() == old(Cells())[k := Entry(c, v)];
    }
  }

  /** The two parts share no memory. */
  ghost predicate Apart(diag: CsrPart, offd: CsrPart) {
    && diag.Valid() && offd.Valid()
    && diag.i != offd.i && diag.i != offd.j && diag.j != offd.i && diag.j != offd.j && diag.data != offd.data
  }

  /** The second loop over one row: the diagonal entry first, then the others in order. */
  lemma UpToGrows(row: seq<Entry>, i: int, col_0: int, col_n: int, k: nat)
    requires k <= |row|
    ensures |DiagUpTo(row, i, col_0, col_n, k)| <= |DiagRow(row, i, col_0, col_n)|
    ensures |OffdRow(row, col_0, col_n, k)| <= |OffdRow(row, col_0, col_n, |row|)|
  {
    PartsGrow(row, DiagPos(row, i, col_0, col_n, |row|), col_0, col_n, k);
  }

  lemma DiagEnds(row: seq<Entry>, i: int, col_0: int, col_n: int)
    ensures var p := DiagPos(row, i, col_0, col_n, |row|);
      DiagUpTo(row, i, col_0, col_n, 0) == if p > -1 then [] + [Shift(row[p], col_0)] else []
    ensures DiagUpTo(row, i, col_0, col_n, |row|) == DiagRow(row, i, col_0, col_n)
    ensures OffdRow(row, col_0, col_n, 0) == []
  {}

  method FillRow(row: seq<Entry>, i: int, pos: int, col_0: int, col_n: int, d0: nat, o0: nat, diag: CsrPart,
                 offd: CsrPart)
    returns (i_diag: nat, i_offd: nat)
    requires pos == DiagPos(row, i, col_0, col_n, |row|) && Apart(diag, offd)
    requires d0 + |DiagRow(row, i, col_0, col_n)| <= |diag.Cells()|
    requires o0 + |OffdRow(row, col_0, col_n, |row|)| <= |offd.Cells()|
    modifies diag.j, diag.data, offd.j, offd.data
    ensures i_diag == d0 + |DiagRow(row, i, col_0, col_n)| && i_offd == o0 + |OffdRow(row, col_0, col_n, |row|)|
    ensures diag.Cells() == Overwrite(old(diag.Cells()), d0, DiagRow(row, i, col_0, col_n))
    ensures offd.Cells() == Overwrite(old(offd.Cells()), o0, OffdRow(row, col_0, col_n, |row|))
  {
    hide OffdRow, DiagRest, DiagPos, DiagUpTo, DiagRow, Overwrite;
    ghost var dbase, obase := diag.Cells(), offd.Cells();
    i_diag, i_offd := d0, o0;
    DiagEnds(row, i, col_0, col_n);
    UpToGrows(row, i, col_0, col_n, 0);
    OverwriteNothing(dbase, d0);
    OverwriteNothing(obase, o0);
    if pos > -1 {
      diag.Append(i_diag, row[pos].col - col_0, row[pos].val, dbase, d0, []);
      i_diag := i_diag + 1;
    }
    for j := 0 to |row|
      invariant d0 + |DiagUpTo(row, i, col_0, col_n, j)| <= |dbase| && o0 + |OffdRow(row, col_0, col_n, j)| <= |obase|
      invariant i_diag == d0 + |DiagUpTo(row, i, col_0, col_n, j)| && i_offd == o0 + |OffdRow(row, col_0, col_n, j)|
      invariant diag.Cells() == Overwrite(dbase, d0, DiagUpTo(row, i, col_0, col_n, j))
      invariant offd.Cells() == Overwrite(obase, o0, OffdRow(row, col_0, col_n, j))
    {
      UpToGrows(row, i, col_0, col_n, j + 1);
      i_diag, i_offd := FillEntry(row, i, j, pos, col_0, col_n, i_diag, i_offd, diag, offd, dbase, d0, obase, o0);
    }
  }

  /** What the second loop has put into diag after j entries. */
  ghost function DiagUpTo(row: seq<Entry>, i: int, col_0: int, col_n: int, j: nat): seq<Entry>
    requires j <= |row|
  {
    DiagHead(row, i, col_0, col_n) + DiagRest(row, DiagPos(row, i, col_0, col_n, |row|), col_0, col_n, j)
  }

  lemma DiagSnoc(row: seq<Entry>, i: int, col_0: int, col_n: int, j: nat)
    requires j < |row|
    ensures var p, before := DiagPos(row, i, col_0, col_n, |row|), DiagUpTo(row, i, col_0, col_n, j);
      DiagUpTo(row, i, col_0, col_n, j + 1)
        == if Owned(row[j].col, col_0, col_n) && j != p then before + [Shift(row[j], col_0)] else before
  {}

  lemma OffdSnoc(row: seq<Entry>, col_0: int, col_n: int, j: nat)
    requires j < |row|
    ensures var before := OffdRow(row, col_0, col_n, j);
      OffdRow(row, col_0, col_n, j + 1) == if Owned(row[j].col, col_0, col_n) then before else before + [row[j]]
  {}

  method FillEntry(row: seq<Entry>, i: int, j: nat, pos: int, col_0: int, col_n: int, d: nat, o: nat, diag: CsrPart,
                   offd: CsrPart, ghost dbase: seq<Entry>, ghost d0: nat, ghost obase: seq<Entry>, ghost o0: nat)
    returns (d': nat, o': nat)
    requires pos == DiagPos(row, i, col_0, col_n, |row|) && Apart(diag, offd) && j < |row|
    requires d == d0 + |DiagUpTo(row, i, col_0, col_n, j)| && d0 + |DiagUpTo(row, i, col_0, col_n, j + 1)| <= |dbase|
    requires o == o0 + |OffdRow(row, col_0, col_n, j)| && o0 + |OffdRow(row, col_0, col_n, j + 1)| <= |obase|
    requires d <= |dbase| && diag.Cells() == Overwrite(dbase, d0, DiagUpTo(row, i, col_0, col_n, j))
    requires o <= |obase| && offd.Cells() == Overwrite(obase, o0, OffdRow(row, col_0, col_n, j))
    modifies diag.j, diag.data, offd.j, offd.data
    ensures d' == d0 + |DiagUpTo(row, i, col_0, col_n, j + 1)| && o' == o0 + |OffdRow(row, col_0, col_n, j + 1)|
    ensures diag.Cells() == Overwrite(dbase, d0, DiagUpTo(row, i, col_0, col_n, j + 1))
    ensures offd.Cells() == Overwrite(obase, o0, OffdRow(row, col_0, col_n, j + 1))
  {
    hide DiagPos, DiagUpTo, OffdRow, Overwrite;
    DiagSnoc(row, i, col_0, col_n, j);
    OffdSnoc(row, col_0, col_n, j);
    d', o' := d, o;
    if row[j].col < col_0 || row[j].col > col_n {
      offd.Append(o, row[j].col, row[j].val, obase, o0, OffdRow(row, col_0, col_n, j));
      o' := o + 1;
    } else if j != pos {
      diag.Append(d, row[j].col - col_0, row[j].val, dbase, d0, DiagUpTo(row, i, col_0, col_n, j));
      d' := d + 1;
    }
  }

  lemma {:induction false} PartsGrow(row: seq<Entry>, p: int, col_0: int, col_n: int, k: nat)
    requires k <= |row|
    ensures |DiagRest(row, p, col_0, col_n, k)| <= |DiagRest(row, p, col_0, col_n, |row|)|
    ensures |OffdRow(row, col_0, col_n, k)| <= |OffdRow(row, col_0, col_n, |row|)|
    decreases |row| - k
  {
    if k < |row| { PartsGrow(row, p, col_0, col_n, k + 1); }
  }

  // ------------------------------------------------------------------ the parallel region

  /** Row i of a CSR part: its start, and its entries in place. */
  ghost predicate RowInPlace(starts: seq<int>, cells: seq<Entry>, counts: seq<nat>, i: nat, es: seq<Entry>) {
    && i < |starts| && i < |counts| && |es| == counts[i]
    && starts[i] == Prefix(counts, i)
    && Prefix(counts, i) + |es| <= |cells|
    && cells[Prefix(counts, i)..Prefix(counts, i) + |es|] == es
  }

  /** Writing row i leaves the other rows as they are. */
  lemma OtherRowsStay(counts: seq<nat>, starts: seq<int>, cells: seq<Entry>, i: nat, es: seq<Entry>, k: nat,
                      fs: seq<Entry>)
    requires i < |counts| && |es| == counts[i] && Prefix(counts, i) + |es| <= |cells| && i < |starts|
    requires RowInPlace(starts, cells, counts, k, fs) && k != i
    ensures RowInPlace(starts[i := Prefix(counts, i)], Overwrite(cells, Prefix(counts, i), es), counts, k, fs)
  {
    if k < i { PrefixMonotone(counts, k + 1, i); } else { PrefixMonotone(counts, i + 1, k); }
    OverwriteSlice(cells, Prefix(counts, i), es, Prefix(counts, k), Prefix(counts, k) + |fs|);
  }

  lemma RowPutInPlace(counts: seq<nat>, starts: seq<int>, cells: seq<Entry>, i: nat, es: seq<Entry>)
    requires i < |counts| && |es| == counts[i] && Prefix(counts, i) + |es| <= |cells| && i < |starts|
    ensures RowInPlace(starts[i := Prefix(counts, i)], Overwrite(cells, Prefix(counts, i), es), counts, i, es)
  {
    OverwriteSlice(cells, Prefix(counts, i), es, 0, 0);
  }

  /** The rows in `done` are in place. */
  ghost predicate Placed(starts: seq<int>, cells: seq<Entry>, counts: seq<nat>, parts: seq<seq<Entry>>,
                         done: set<nat>) {
    && |starts| == |parts| + 1 && |counts| == |parts| && |cells| == Prefix(counts, |parts|)
      && starts[|parts|] == |cells|
    && forall i :: i in done ==> i < |parts| && RowInPlace(starts, cells, counts, i, parts[i])
  }

  lemma PlacedNext(starts: seq<int>, cells: seq<Entry>, counts: seq<nat>, parts: seq<seq<Entry>>, done: set<nat>,
                   i: nat)
    requires Placed(starts, cells, counts, parts, done) && i < |parts| && i !in done && counts == Lens(parts)
    ensures Prefix(counts, i) + |parts[i]| <= |cells|
    ensures Placed(starts[i := Prefix(counts, i)], Overwrite(cells, Prefix(counts, i), parts[i]), counts, parts,
      done + {i})
  {
    hide RowInPlace;
    PrefixMonotone(counts, i + 1, |counts|);
    forall k | k in done
      ensures RowInPlace(starts[i := Prefix(counts, i)], Overwrite(cells, Prefix(counts, i), parts[i]), counts, k,
        parts[k])
    {
      OtherRowsStay(counts, starts, cells, i, parts[i], k, parts[k]);
    }
    RowPutInPlace(counts, starts, cells, i, parts[i]);
  }

  /** Row i filled at the two offsets. */
  method FillOne(m: seq<seq<Entry>>, col_0: int, col_n: int, i: nat, pos: int, i_diag: nat, i_offd: nat, diag: CsrPart,
                 offd: CsrPart, ghost nd: seq<nat>, ghost no: seq<nat>, ghost done: set<nat>)
    returns (i_diag': nat, i_offd': nat)
    requires nd == Lens(DiagRows(m, col_0, col_n)) && no == Lens(OffdRows(m, col_0, col_n))
    requires i < |m| && i !in done && Apart(diag, offd) && pos == DiagPos(m[i], i, col_0, col_n, |m[i]|)
    requires i_diag == Prefix(nd, i) && i_offd == Prefix(no, i)
    requires Placed(diag.i[..], diag.Cells(), nd, DiagRows(m, col_0, col_n), done)
    requires Placed(offd.i[..], offd.Cells(), no, OffdRows(m, col_0, col_n), done)
    modifies diag.i, diag.j, diag.data, offd.i, offd.j, offd.data
    ensures i_diag' == i_diag + nd[i] && i_offd' == i_offd + no[i]
    ensures Placed(diag.i[..], diag.Cells(), nd, DiagRows(m, col_0, col_n), done + {i})
    ensures Placed(offd.i[..], offd.Cells(), no, OffdRows(m, col_0, col_n), done + {i})
  {
    PlacedNext(diag.i[..], diag.Cells(), nd, DiagRows(m, col_0, col_n), done, i);
    PlacedNext(offd.i[..], offd.Cells(), no, OffdRows(m, col_0, col_n), done, i);
    ghost var di, oi, dc, oc := diag.i[..], offd.i[..], diag.Cells(), offd.Cells();
    diag.i[i], offd.i[i] := i_diag, i_offd;
    assert diag.i[..] == di[i := i_diag] && offd.i[..] == oi[i := i_offd];
    assert diag.Cells() == dc && offd.Cells() == oc;
    i_diag', i_offd' := FillRow(m[i], i, pos, col_0, col_n, i_diag, i_offd, diag, offd);
  }

  /** Both parts hold the rows in `done`. */
  ghost predicate Filled(m: seq<seq<Entry>>, col_0: int, col_n: int, diag: CsrPart, offd: CsrPart, done: set<nat>)
    requires Apart(diag, offd)
    reads diag.i, diag.j, diag.data, offd.i, offd.j, offd.data
  {
    && Placed(diag.i[..], diag.Cells(), Lens(DiagRows(m, col_0, col_n)), DiagRows(m, col_0, col_n), done)
    && Placed(offd.i[..], offd.Cells(), Lens(OffdRows(m, col_0, col_n)), OffdRows(m, col_0, col_n), done)
  }

  /** The threads know where their next rows go. */
  ghost predicate AtRows(m: seq<seq<Entry>>, col_0: int, col_n: int, pos: seq<nat>, i_diag: seq<nat>,
                         i_offd: seq<nat>) {
    && AtOffsets(Lens(DiagRows(m, col_0, col_n)), pos, i_diag)
    && AtOffsets(Lens(OffdRows(m, col_0, col_n)), pos, i_offd)
  }

  lemma AtRowsNext(m: seq<seq<Entry>>, col_0: int, col_n: int, pos: seq<nat>, i_diag: seq<nat>, i_offd: seq<nat>,
                   t: nat)
    requires AtRows(m, col_0, col_n, pos, i_diag, i_offd) && t < |pos| && pos[t] < |m|
    ensures AtRows(m, col_0, col_n, pos[t := pos[t] + 1],
                   i_diag[t := i_diag[t] + Lens(DiagRows(m, col_0, col_n))[pos[t]]],
                   i_offd[t := i_offd[t] + Lens(OffdRows(m, col_0, col_n))[pos[t]]])
  {
    AtOffsetsNext(Lens(DiagRows(m, col_0, col_n)), pos, i_diag, t);
    AtOffsetsNext(Lens(OffdRows(m, col_0, col_n)), pos, i_offd, t);
  }

  lemma TurnAt(m: seq<seq<Entry>>, col_0: int, col_n: int, pos: seq<nat>, t: nat, diag_pos: seq<int>, i_diag: seq<nat>,
               i_offd: seq<nat>)
    requires t < |pos| && pos[t] < |m| && PosRight(m, col_0, col_n, diag_pos, Below(|m|))
      && AtRows(m, col_0, col_n, pos, i_diag, i_offd)
    ensures |i_diag| == |i_offd| == |pos| && |diag_pos| == |m|
    ensures |Lens(DiagRows(m, col_0, col_n))| == |Lens(OffdRows(m, col_0, col_n))| == |m|
    ensures i_diag[t] == Prefix(Lens(DiagRows(m, col_0, col_n)), pos[t])
    ensures i_offd[t] == Prefix(Lens(OffdRows(m, col_0, col_n)), pos[t])
    ensures diag_pos[pos[t]] == DiagPos(m[pos[t]], pos[t], col_0, col_n, |m[pos[t]]|)
  {
    hide Prefix;
  }

  /** Thread t fills its next row. */
  method FillTurn(m: seq<seq<Entry>>, col_0: int, col_n: int, pos: seq<nat>, t: nat, diag_pos: seq<int>,
                  i_diag: seq<nat>, i_offd: seq<nat>, diag: CsrPart, offd: CsrPart, ghost done: set<nat>)
    returns (i_diag': seq<nat>, i_offd': seq<nat>)
    requires t < |pos| && pos[t] < |m| && pos[t] !in done && Apart(diag, offd)
    requires PosRight(m, col_0, col_n, diag_pos, Below(|m|))
    requires AtRows(m, col_0, col_n, pos, i_diag, i_offd) && Filled(m, col_0, col_n, diag, offd, done)
    modifies diag.i, diag.j, diag.data, offd.i, offd.j, offd.data
    ensures AtRows(m, col_0, col_n, pos[t := pos[t] + 1], i_diag', i_offd')
    ensures Filled(m, col_0, col_n, diag, offd, done + {pos[t]})
  {
    hide AtRows, PosRight, Placed, Lens, Apart;
    TurnAt(m, col_0, col_n, pos, t, diag_pos, i_diag, i_offd);
    ghost var nd, no := Lens(DiagRows(m, col_0, col_n)), Lens(OffdRows(m, col_0, col_n));
    AtRowsNext(m, col_0, col_n, pos, i_diag, i_offd, t);
    var d, o := FillOne(m, col_0, col_n, pos[t], diag_pos[pos[t]], i_diag[t], i_offd[t], diag, offd, nd, no, done);
    i_diag', i_offd' := i_diag[t := d], i_offd[t := o];
  }

  /** After the second barrier: the threads, in any interleaving of their rows, fill the two parts. */
  method FillRows(m: seq<seq<Entry>>, col_0: int, col_n: int, lo: seq<nat>, hi: seq<nat>, diag_pos: seq<int>,
                  i_diag0: seq<nat>, i_offd0: seq<nat>, diag: CsrPart, offd: CsrPart)
    requires Chained(lo, hi, 0, |m|) && PosRight(m, col_0, col_n, diag_pos, Below(|m|)) && Apart(diag, offd)
    requires AtRows(m, col_0, col_n, lo, i_diag0, i_offd0) && Filled(m, col_0, col_n, diag, offd, {})
    modifies diag.i, diag.j, diag.data, offd.i, offd.j, offd.data
    ensures Filled(m, col_0, col_n, diag, offd, Below(|m|))
  {
    var pos, i_diag, i_offd := lo, i_diag0, i_offd0;
    ghost var done: set<nat> := {};
    StandingStart(|m|, lo, hi);
    while exists t :: 0 <= t < |lo| && pos[t] < hi[t]
      invariant Standing(|m|, lo, pos, hi) && DoneSoFar(lo, pos, done)
      invariant AtRows(m, col_0, col_n, pos, i_diag, i_offd) && Filled(m, col_0, col_n, diag, offd, done)
      decreases Below(|m|) - done
    {
      var t :| 0 <= t < |lo| && pos[t] < hi[t];
      StandingNext(|m|, lo, pos, hi, done, t);
      i_diag, i_offd := FillTurn(m, col_0, col_n, pos, t, diag_pos, i_diag, i_offd, diag, offd, done);
      done := done + {pos[t]};
      pos := pos[t := pos[t] + 1];
    }
    AllDone(|m|, lo, pos, hi, done);
  }

  // ------------------------------------------------------------------ the result

  lemma FlattenNext(cells: seq<Entry>, p: nat, q: nat, parts: seq<seq<Entry>>, k: nat)
    requires k < |parts| && p <= q <= |cells| && cells[..p] == Flatten(parts[..k]) && cells[p..q] == parts[k]
    ensures cells[..q] == Flatten(parts[..k + 1])
  {
    assert cells[..q] == cells[..p] + cells[p..q];
    assert parts[..k + 1][..k] == parts[..k];
  }

  lemma RowAt(starts: seq<int>, cells: seq<Entry>, counts: seq<nat>, parts: seq<seq<Entry>>, k: nat)
    requires Placed(starts, cells, counts, parts, Below(|parts|)) && k < |parts|
    ensures RowInPlace(starts, cells, counts, k, parts[k])
  {
    hide RowInPlace, Prefix, Below;
    assert k in Below(|parts|);
  }

  lemma StartsOf(starts: seq<int>, cells: seq<Entry>, counts: seq<nat>, parts: seq<seq<Entry>>)
    requires Placed(starts, cells, counts, parts, Below(|parts|))
    ensures |starts| == |counts| + 1 && |counts| == |parts| && starts[|parts|] == Prefix(counts, |parts|) == |cells|
  {}

  lemma {:induction false} PlacedIsFlat(starts: seq<int>, cells: seq<Entry>, counts: seq<nat>, parts: seq<seq<Entry>>,
                                        k: nat)
    requires Placed(starts, cells, counts, parts, Below(|parts|)) && k <= |parts| == |counts|
    ensures Prefix(counts, k) <= |cells| && cells[..Prefix(counts, k)] == Flatten(parts[..k])
  {
    hide Placed;
    if k > 0 {
      PlacedIsFlat(starts, cells, counts, parts, k - 1);
      RowAt(starts, cells, counts, parts, k - 1);
      FlattenNext(cells, Prefix(counts, k - 1), Prefix(counts, k), parts, k - 1);
    }
  }

  /** The running totals 0, counts[0], counts[0] + counts[1], ... */
  function Totals(counts: seq<nat>): (r: seq<int>)
    ensures |r| == |counts| + 1 && forall k :: 0 <= k <= |counts| ==> r[k] == Prefix(counts, k)
  {
    seq(|counts| + 1, k requires 0 <= k <= |counts| => Prefix(counts, k))
  }

  /** Row pointers that are running totals, and the entries of the rows, one row after the other. */
  ghost predicate IsCsr(starts: seq<int>, cells: seq<Entry>, parts: seq<seq<Entry>>) {
    starts == Totals(Lens(parts)) && cells == Flatten(parts)
  }

  lemma PlacedIsCsr(starts: seq<int>, cells: seq<Entry>, counts: seq<nat>, parts: seq<seq<Entry>>)
    requires counts == Lens(parts) && Placed(starts, cells, counts, parts, Below(|parts|))
    ensures IsCsr(starts, cells, parts)
  {
    PlacedCells(starts, cells, counts, parts);
    PlacedTotals(starts, cells, counts, parts);
  }

  lemma PlacedCells(starts: seq<int>, cells: seq<Entry>, counts: seq<nat>, parts: seq<seq<Entry>>)
    requires Placed(starts, cells, counts, parts, Below(|parts|))
    ensures cells == Flatten(parts)
  {
    hide *;
    StartsOf(starts, cells, counts, parts);
    PlacedIsFlat(starts, cells, counts, parts, |parts|);
    assert parts[..|parts|] == parts && cells[..|cells|] == cells;
  }

  lemma PlacedTotals(starts: seq<int>, cells: seq<Entry>, counts: seq<nat>, parts: seq<seq<Entry>>)
    requires Placed(starts, cells, counts, parts, Below(|parts|))
    ensures starts == Totals(counts)
  {
    hide Placed, Prefix, Below;
    StartsOf(starts, cells, counts, parts);
    forall k | 0 <= k < |parts| ensures starts[k] == Prefix(counts, k) { RowAt(starts, cells, counts, parts, k); }
  }

  /** The two parts hold the sequential CSR of the rows. */
  ghost predicate Assembled(m: seq<seq<Entry>>, col_0: int, col_n: int, diag: CsrPart, offd: CsrPart)
    requires diag.Valid() && offd.Valid()
    reads diag.i, diag.j, diag.data, offd.i, offd.j, offd.data
  {
    && IsCsr(diag.i[..], diag.Cells(), DiagRows(m, col_0, col_n))
    && IsCsr(offd.i[..], offd.Cells(), OffdRows(m, col_0, col_n))
  }

  lemma FilledIsAssembled(m: seq<seq<Entry>>, col_0: int, col_n: int, diag: CsrPart, offd: CsrPart)
    requires Apart(diag, offd) && Filled(m, col_0, col_n, diag, offd, Below(|m|))
    ensures Assembled(m, col_0, col_n, diag, offd)
  {
    var dr, or := DiagRows(m, col_0, col_n), OffdRows(m, col_0, col_n);
    PlacedIsCsr(diag.i[..], diag.Cells(), Lens(dr), dr);
    PlacedIsCsr(offd.i[..], offd.Cells(), Lens(or), or);
  }

  /** The first two phases: counts, totals, and each thread's first positions in the new arrays. */
  method Prepare(m: seq<seq<Entry>>, col_0: int, col_n: int, lo: seq<nat>, hi: seq<nat>)
    returns (diag_pos: seq<int>, diag: CsrPart, offd: CsrPart, i_diag: seq<nat>, i_offd: seq<nat>)
    requires |lo| >= 1 && Chained(lo, hi, 0, |m|)
    ensures fresh(diag.i) && fresh(diag.j) && fresh(diag.data) && fresh(offd.i) && fresh(offd.j) && fresh(offd.data)
    ensures PosRight(m, col_0, col_n, diag_pos, Below(|m|)) && Apart(diag, offd)
    ensures AtRows(m, col_0, col_n, lo, i_diag, i_offd) && Filled(m, col_0, col_n, diag, offd, {})
  {
    ghost var nd, no := Lens(DiagRows(m, col_0, col_n)), Lens(OffdRows(m, col_0, col_n));
    var diag_array, offd_array;
    diag_pos, diag_array, offd_array := CountRows(m, col_0, col_n, lo, hi);
    var diag_totals := RunningTotals(diag_array, nd, lo, hi);
    var offd_totals := RunningTotals(offd_array, no, lo, hi);
    i_diag := FillStarts(diag_totals, nd, lo, hi);
    i_offd := FillStarts(offd_totals, no, lo, hi);
    diag := new CsrPart(|m|, diag_totals[|lo| - 1]);
    offd := new CsrPart(|m|, offd_totals[|lo| - 1]);
  }

  /** The parallel region of hypre_IJMatrixAssembleParCSR on the row buffers' contents m: for every number
      of threads and every interleaving the result is the sequential pair of CSR matrices. */
  method AssembleRows(m: seq<seq<Entry>>, col_0: int, col_n: int, num_threads: nat)
    returns (diag: CsrPart, offd: CsrPart)
    requires num_threads >= 1
    ensures fresh(diag.i) && fresh(diag.j) && fresh(diag.data) && fresh(offd.i) && fresh(offd.j) && fresh(offd.data)
    ensures Apart(diag, offd) && Assembled(m, col_0, col_n, diag, offd)
  {
    var lo, hi := ThreadBlocks(|m|, num_threads);
    var diag_pos, i_diag, i_offd;
    diag_pos, diag, offd, i_diag, i_offd := Prepare(m, col_0, col_n, lo, hi);
    FillRows(m, col_0, col_n, lo, hi, diag_pos, i_diag, i_offd, diag, offd);
    FilledIsAssembled(m, col_0, col_n, diag, offd);
  }
}
