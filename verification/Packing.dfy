/** Packing the stash into one buffer, a message for each processor to contact. */
module Packing {
  import opened Basics
  import opened SparseRows
  import opened AuxMatrix
  import opened Messages
  import opened Contacts
  import opened ColumnMap
  import opened Blocks
  import opened Parts

  /** The cells bases[k] to limits[k] - 1 are for contact k: one for the number of rows, two for each row
      and two for each element; they lie one after the other and fill the buffer. */
  ghost predicate Laid(bases: seq<nat>, limits: seq<nat>, num_rows: seq<nat>, num_elements: seq<nat>, storage: nat) {
    && |bases| == |num_rows| == |num_elements| && Chained(bases, limits, 0, storage)
    && forall k :: 0 <= k < |bases| ==> limits[k] == bases[k] + 1 + 2 * num_rows[k] + 2 * num_elements[k]
  }

  method WriteCols(buf: array<Cell>, at: nat, n: nat, cols: seq<int>, counter: nat, ghost us: seq<Entry>)
    requires at + n <= buf.Length && counter + n <= |cols| && |us| == n
      && forall k :: 0 <= k < n ==> us[k].col == cols[counter + k]
    modifies buf
    ensures buf[..] == Overwrite(old(buf[..]), at, ColCells(us))
  {
    for j := 0 to n
      invariant forall k :: at <= k < at + j ==> buf[k] == ColCells(us)[k - at]
      invariant forall k :: 0 <= k < buf.Length && !(at <= k < at + j) ==> buf[k] == old(buf[k])
    {
      buf[at + j] := IntCell(cols[counter + j]);
    }
  }

  method WriteVals(buf: array<Cell>, at: nat, n: nat, values: seq<real>, counter: nat, ghost us: seq<Entry>)
    requires at + n <= buf.Length && counter + n <= |values| && |us| == n
      && forall k :: 0 <= k < n ==> us[k].val == values[counter + k]
    modifies buf
    ensures buf[..] == Overwrite(old(buf[..]), at, ValCells(us))
  {
    for j := 0 to n
      invariant forall k :: at <= k < at + j ==> buf[k] == ValCells(us)[k - at]
      invariant forall k :: 0 <= k < buf.Length && !(at <= k < at + j) ==> buf[k] == old(buf[k])
    {
      buf[at + j] := RealCell(values[counter + j]);
    }
  }

  /** One row goes into the buffer from cell `at` on. */
  method WriteRow(buf: array<Cell>, at: nat, row: int, n: nat, cols: seq<int>, values: seq<real>, counter: nat)
    requires at + 2 + 2 * n <= buf.Length && counter + n <= |cols| && counter + n <= |values|
    modifies buf
    ensures buf[..] == Overwrite(old(buf[..]), at, EncodeRow(RowOp(row, Stretch(cols, values, counter, n))))
  {
    hide Overwrite;
    ghost var s, us := buf[..], Stretch(cols, values, counter, n);
    WriteHead(buf, at, row, n);
    WriteCols(buf, at + 2, n, cols, counter, us);
    WriteVals(buf, at + 2 + n, n, values, counter, us);
    RowInThree(s, at, [IntCell(row), IntCell(n)], ColCells(us), ValCells(us));
  }

  method WriteHead(buf: array<Cell>, at: nat, row: int, n: nat)
    requires at + 2 <= buf.Length
    modifies buf
    ensures buf[..] == Overwrite(old(buf[..]), at, [IntCell(row), IntCell(n)])
  {
    buf[at], buf[at + 1] := IntCell(row), IntCell(n);
  }

  lemma RowInThree(s: seq<Cell>, at: nat, a: seq<Cell>, b: seq<Cell>, c: seq<Cell>)
    requires at + |a| + |b| + |c| <= |s|
    ensures Overwrite(Overwrite(Overwrite(s, at, a), at + |a|, b), at + |a| + |b|, c) == Overwrite(s, at, a + b + c)
  {
    OverwriteTwice(s, at, a, b);
    OverwriteTwice(s, at, a + b, c);
  }

  // ---- which cells are in place

  /** The message for a processor after the first i stashed rows: nothing as long as none of them is its. */
  ghost function MessageSoFar(ops: seq<RowOp>, i: nat, owner: int -> int, p: int, num_rows: nat): seq<Cell>
    requires i <= |ops|
  {
    if |RowsFor(ops, i, owner, p)| == 0 then [] else [IntCell(num_rows)] + EncodeRows(RowsFor(ops, i, owner, p))
  }

  ghost function MessagesSoFar(ops: seq<RowOp>, i: nat, owner: int -> int, procs: seq<int>,
                               num_rows: seq<nat>): (r: seq<seq<Cell>>)
    requires i <= |ops| && |procs| == |num_rows|
    ensures |r| == |procs| && forall k :: 0 <= k < |r| ==> r[k] == MessageSoFar(ops, i, owner, procs[k], num_rows[k])
  {
    seq(|procs|, k requires 0 <= k < |procs| => MessageSoFar(ops, i, owner, procs[k], num_rows[k]))
  }

  /** A start holds -base-1 as long as nothing has been packed, and where the next row goes once something has. */
  ghost function NextAt(start: int): nat { if start < 0 then -start - 1 else start }

  ghost function NextsAt(starts: seq<int>): (r: seq<int>)
    ensures |r| == |starts| && forall k :: 0 <= k < |r| ==> r[k] == NextAt(starts[k])
  {
    seq(|starts|, k requires 0 <= k < |starts| => NextAt(starts[k]))
  }

  ghost predicate SignsTell(starts: seq<int>, parts: seq<seq<Cell>>) {
    |starts| == |parts| + 1 && forall k :: 0 <= k < |parts| ==> (starts[k] < 0 <==> |parts[k]| == 0)
  }

  /** All messages after the first i rows of the stash. */
  ghost predicate Packed(buf: seq<Cell>, starts: seq<int>, parts: seq<seq<Cell>>, bases: seq<nat>) {
    && SignsTell(starts, parts) && |bases| == |parts|
    && Filling(buf, NextsAt(starts), bases, parts, |parts|)
  }

  lemma PackedFirst(buf: seq<Cell>, starts: seq<int>, parts: seq<seq<Cell>>, bases: seq<nat>, limits: seq<nat>)
    requires |starts| == |parts| + 1 == |bases| + 1 && Chained(bases, limits, 0, |buf|)
    requires forall k :: 0 <= k < |parts| ==> starts[k] + bases[k] + 1 == 0 && parts[k] == []
    ensures Packed(buf, starts, parts, bases)
  {
    FillingStart(buf, NextsAt(starts), bases, limits, parts, |parts|);
  }

  /** What is packed for a processor never exceeds what was counted for it. */
  lemma {:induction false} RowsGrow(ops: seq<RowOp>, owner: int -> int, p: int, i: nat)
    requires i <= |ops|
    ensures |EncodeRows(RowsFor(ops, i, owner, p))| <= |EncodeRows(RowsFor(ops, |ops|, owner, p))|
    decreases |ops| - i
  {
    hide EncodeRows, EncodeRow, RowsFor;
    if i < |ops| {
      RowsForNext(ops, owner, p, i);
      RowsGrow(ops, owner, p, i + 1);
    }
  }

  /** The messages stay within their cells ... */
  lemma MessagesFit(ops: seq<RowOp>, owner: int -> int, procs: seq<int>, num_rows: seq<nat>, num_elements: seq<nat>,
                    bases: seq<nat>, limits: seq<nat>, storage: nat, i: nat)
    requires ContactsOf(ops, owner, procs, num_rows, num_elements) && i <= |ops|
    requires Laid(bases, limits, num_rows, num_elements, storage)
    ensures Fit(MessagesSoFar(ops, i, owner, procs, num_rows), bases, limits)
  {
    forall k | 0 <= k < |procs|
      ensures |MessageSoFar(ops, i, owner, procs[k], num_rows[k])| <= 1 + 2 * num_rows[k] + 2 * num_elements[k]
    {
      CountsAt(ops, owner, procs, num_rows, num_elements, |procs|, k);
      RowsGrow(ops, owner, procs[k], i);
      EncodeLength(RowsFor(ops, |ops|, owner, procs[k]));
    }
  }

  /** ... and in the end fill them ... */
  lemma MessagesFull(ops: seq<RowOp>, owner: int -> int, procs: seq<int>, num_rows: seq<nat>, num_elements: seq<nat>,
                     bases: seq<nat>, limits: seq<nat>, storage: nat, parts: seq<seq<Cell>>)
    requires ContactsOf(ops, owner, procs, num_rows, num_elements)
      && parts == MessagesSoFar(ops, |ops|, owner, procs, num_rows)
    requires Laid(bases, limits, num_rows, num_elements, storage)
    ensures Full(parts, bases, limits) && forall k :: 0 <= k < |parts| ==> |parts[k]| > 0
  {
    hide Encode, MessageSoFar;
    forall k | 0 <= k < |procs| ensures |parts[k]| == 1 + 2 * num_rows[k] + 2 * num_elements[k] {
      CountsAt(ops, owner, procs, num_rows, num_elements, |procs|, k);
      MessageFull(ops, owner, procs[k], num_rows[k], num_elements[k]);
    }
  }

  /** ... being whole. */
  lemma MessagesWhole(ops: seq<RowOp>, owner: int -> int, procs: seq<int>, num_rows: seq<nat>, num_elements: seq<nat>)
    requires ContactsOf(ops, owner, procs, num_rows, num_elements)
    ensures MessagesSoFar(ops, |ops|, owner, procs, num_rows) == MessageList(ops, owner, procs)
      && EachHasRows(ops, owner, procs)
  {
    hide Encode, MessageSoFar;
    var parts := MessagesSoFar(ops, |ops|, owner, procs, num_rows);
    forall k | 0 <= k < |procs|
      ensures parts[k] == Encode(RowsFor(ops, |ops|, owner, procs[k])) && |RowsFor(ops, |ops|, owner, procs[k])| > 0
    {
      CountsAt(ops, owner, procs, num_rows, num_elements, |procs|, k);
      MessageFull(ops, owner, procs[k], num_rows[k], num_elements[k]);
    }
  }

  lemma MessageFull(ops: seq<RowOp>, owner: int -> int, p: int, rows: nat, elements: nat)
    requires CountIs(RowsFor(ops, |ops|, owner, p), rows, elements)
    ensures |MessageSoFar(ops, |ops|, owner, p, rows)| == 1 + 2 * rows + 2 * elements
    ensures MessageSoFar(ops, |ops|, owner, p, rows) == Encode(RowsFor(ops, |ops|, owner, p))
  {
    EncodeLength(RowsFor(ops, |ops|, owner, p));
  }

  /** The cells packed for the next row of a contact. */
  ghost function CountCells(start: int, num_rows: nat): seq<Cell> { if start < 0 then [IntCell(num_rows)] else [] }

  ghost function NextCells(start: int, num_rows: nat, op: RowOp): seq<Cell> {
    CountCells(start, num_rows) + EncodeRow(op)
  }

  /** Row i goes to its owner's message ... */
  lemma OwnMessage(ops: seq<RowOp>, i: nat, owner: int -> int, p: int, num_rows: nat, start: int, m: seq<Cell>,
                   cells: seq<Cell>)
    requires i < |ops| && owner(Actual(ops[i].row)) == p && m == MessageSoFar(ops, i, owner, p, num_rows)
    requires (start < 0 <==> |m| == 0) && cells == NextCells(start, num_rows, ops[i])
    ensures MessageSoFar(ops, i + 1, owner, p, num_rows) == m + cells != []
  {
    RowsForNext(ops, owner, p, i);
    OneMoreRow(EncodeRows(RowsFor(ops, i, owner, p)), EncodeRow(ops[i]), IntCell(num_rows));
  }

  lemma OneMoreRow(rows: seq<Cell>, row: seq<Cell>, count: Cell)
    ensures [count] + (rows + row) == ([count] + rows) + row
    ensures |rows| == 0 ==> [count] + (rows + row) == [] + ([count] + row)
    ensures [] + row == row
  {}

  /** ... and to no other. */
  lemma OtherMessage(ops: seq<RowOp>, i: nat, owner: int -> int, p: int, num_rows: nat)
    requires i < |ops| && owner(Actual(ops[i].row)) != p
    ensures MessageSoFar(ops, i + 1, owner, p, num_rows) == MessageSoFar(ops, i, owner, p, num_rows)
  {
    RowsForNext(ops, owner, p, i);
  }

  lemma MessagesNext(ops: seq<RowOp>, i: nat, owner: int -> int, procs: seq<int>, num_rows: seq<nat>, starts: seq<int>,
                     k: nat, parts: seq<seq<Cell>>, cells: seq<Cell>)
    requires i < |ops| && |procs| == |num_rows| && Increasing(procs) && k < |procs|
      && procs[k] == owner(Actual(ops[i].row))
    requires parts == MessagesSoFar(ops, i, owner, procs, num_rows) && SignsTell(starts, parts)
    requires cells == NextCells(starts[k], num_rows[k], ops[i])
    ensures MessagesSoFar(ops, i + 1, owner, procs, num_rows) == parts[k := parts[k] + cells]
    ensures parts[k] + cells != []
  {
    var after := MessagesSoFar(ops, i + 1, owner, procs, num_rows);
    OwnMessage(ops, i, owner, procs[k], num_rows[k], starts[k], parts[k], cells);
    forall j | 0 <= j < |procs| && j != k ensures after[j] == parts[j] {
      OtherMessage(ops, i, owner, procs[j], num_rows[j]);
    }
  }

  /** Packing one row: where its processor's next row goes is read off the start, whose sign tells whether
      the number of rows must be written first. */
  method PackRow(buf: array<Cell>, start: int, num_rows: nat, stash: Call, i: nat, counter: nat) returns (in_i: nat)
    requires stash.Valid() && i < |stash.rows| && counter == Prefix(stash.ncols, i)
    requires NextAt(start) + |NextCells(start, num_rows, stash.Op(i))| <= buf.Length
    modifies buf
    ensures buf[..] == Overwrite(old(buf[..]), NextAt(start), NextCells(start, num_rows, stash.Op(i)))
    ensures in_i == NextAt(start) + |NextCells(start, num_rows, stash.Op(i))|
  {
    ghost var s := buf[..];
    PrefixMonotone(stash.ncols, i + 1, |stash.ncols|);
    in_i := WriteCount(buf, start, num_rows);
    var n := stash.ncols[i];
    WriteRow(buf, in_i, stash.rows[i], n, stash.cols, stash.values, counter);
    OverwriteTwice(s, NextAt(start), CountCells(start, num_rows), EncodeRow(stash.Op(i)));
    in_i := in_i + 2 + 2 * n;
  }

  method WriteCount(buf: array<Cell>, start: int, num_rows: nat) returns (in_i: nat)
    requires NextAt(start) + |CountCells(start, num_rows)| <= buf.Length
    modifies buf
    ensures buf[..] == Overwrite(old(buf[..]), NextAt(start), CountCells(start, num_rows))
    ensures in_i == NextAt(start) + |CountCells(start, num_rows)|
  {
    if start < 0 {
      in_i := -start - 1;
      buf[in_i] := IntCell(num_rows);
      in_i := in_i + 1;
    } else {
      in_i := start;
    }
  }

  lemma PackedNext(buf: seq<Cell>, starts: seq<int>, parts: seq<seq<Cell>>, bases: seq<nat>, limits: seq<nat>, k: nat,
                   at: nat, cells: seq<Cell>, parts': seq<seq<Cell>>)
    requires Packed(buf, starts, parts, bases) && k < |parts| && Chained(bases, limits, 0, |buf|)
    requires at == NextAt(starts[k]) && parts' == parts[k := parts[k] + cells] && parts[k] + cells != []
    requires Fit(parts, bases, limits) && Fit(parts', bases, limits)
    ensures at + |cells| <= |buf| && Packed(Overwrite(buf, at, cells), starts[k := at + |cells|], parts', bases)
  {
    var nexts, n := NextsAt(starts), |parts|;
    FillPart(buf, nexts, bases, limits, parts, k, cells, at, parts');
    assert NextsAt(starts[k := at + |cells|]) == nexts[k := at + |cells|];
  }

  /** Total storage, and the start of each message as -start-1. */
  method NegativeStarts(num_rows: seq<nat>, num_elements: seq<nat>)
    returns (starts: seq<int>, storage: nat, ghost bases: seq<nat>, ghost limits: seq<nat>)
    requires |num_rows| == |num_elements|
    ensures Laid(bases, limits, num_rows, num_elements, storage)
    ensures |starts| == |num_rows| + 1 && forall k :: 0 <= k < |bases| ==> starts[k] + bases[k] + 1 == 0
  {
    storage := 0;
    starts := [-1];
    bases, limits := [], [];
    for i := 0 to |num_rows|
      invariant |starts| == i + 1 && |bases| == |limits| == i && starts[i] + storage + 1 == 0
      invariant Chained(bases, limits, 0, storage)
      invariant forall k :: 0 <= k < i ==> starts[k] + bases[k] + 1 == 0
      invariant forall k :: 0 <= k < i ==> limits[k] == bases[k] + 1 + 2 * num_rows[k] + 2 * num_elements[k]
    {
      ghost var base := storage;
      storage := storage + 1 + 2 * num_rows[i] + 2 * num_elements[i];
      ChainedSnoc(bases, limits, 0, base, storage);
      bases, limits := bases + [base], limits + [storage];
      starts := starts + [-1 - storage as int];
    }
  }

  /** The message for each contact: the stashed rows it owns, in stash order. */
  ghost function MessageList(ops: seq<RowOp>, owner: int -> int, procs: seq<int>): (r: seq<seq<Cell>>)
    ensures |r| == |procs| && forall k :: 0 <= k < |r| ==> r[k] == Encode(RowsFor(ops, |ops|, owner, procs[k]))
  {
    seq(|procs|, k requires 0 <= k < |procs| => Encode(RowsFor(ops, |ops|, owner, procs[k])))
  }

  ghost predicate EachHasRows(ops: seq<RowOp>, owner: int -> int, procs: seq<int>) {
    forall k :: 0 <= k < |procs| ==> |RowsFor(ops, |ops|, owner, procs[k])| > 0
  }

  /** The packed buffer: a message for every owner of a stashed row, together filling the buffer. */
  ghost predicate Mailed(buf: seq<Cell>, starts: seq<int>, ops: seq<RowOp>, owner: int -> int, procs: seq<int>) {
    && Increasing(procs) && OwnersIn(ops, |ops|, owner, procs) && EachHasRows(ops, owner, procs)
    && |starts| == |procs| + 1 && starts[|procs|] == |buf|
      && Slices(buf, starts, MessageList(ops, owner, procs), |procs|)
  }

  lemma EndsAreNexts(ends: seq<int>, starts: seq<int>, parts: seq<seq<Cell>>, bases: seq<nat>)
    requires SignsTell(ends, parts) && forall k :: 0 <= k < |parts| ==> |parts[k]| > 0
    requires |starts| == |ends| && starts[0] == 0 && forall k :: 1 <= k < |starts| ==> starts[k] == ends[k - 1]
    ensures forall k :: 1 <= k < |starts| ==> starts[k] == NextsAt(ends)[k - 1]
  {}

  lemma PackedIsSlices(buf: seq<Cell>, ends: seq<int>, starts: seq<int>, parts: seq<seq<Cell>>, bases: seq<nat>,
                       limits: seq<nat>)
    requires Packed(buf, ends, parts, bases) && Full(parts, bases, limits) && Chained(bases, limits, 0, |buf|)
    requires forall k :: 0 <= k < |parts| ==> |parts[k]| > 0
    requires |starts| == |ends| && starts[0] == 0 && forall k :: 1 <= k < |starts| ==> starts[k] == ends[k - 1]
    ensures |starts| == |parts| + 1 && starts[|parts|] == |buf| && Slices(buf, starts, parts, |parts|)
  {
    EndsAreNexts(ends, starts, parts, bases);
    FullSlices(buf, NextsAt(ends), starts, bases, limits, parts, |parts|);
  }

  /** When all rows are packed, every message is complete and fills its cells exactly. */
  lemma PackedIsMailed(buf: seq<Cell>, ends: seq<int>, starts: seq<int>, ops: seq<RowOp>, owner: int -> int,
                       procs: seq<int>, num_rows: seq<nat>, num_elements: seq<nat>, bases: seq<nat>, limits: seq<nat>)
    requires ContactsOf(ops, owner, procs, num_rows, num_elements) && Laid(bases, limits, num_rows, num_elements, |buf|)
    requires Packed(buf, ends, MessagesSoFar(ops, |ops|, owner, procs, num_rows), bases)
    requires |starts| == |ends| && starts[0] == 0 && forall k :: 1 <= k < |starts| ==> starts[k] == ends[k - 1]
    ensures Mailed(buf, starts, ops, owner, procs)
  {
    var parts := MessagesSoFar(ops, |ops|, owner, procs, num_rows);
    MessagesFull(ops, owner, procs, num_rows, num_elements, bases, limits, |buf|, parts);
    MessagesWhole(ops, owner, procs, num_rows, num_elements);
    PackedIsSlices(buf, ends, starts, parts, bases, limits);
  }

  /** Packing row i, whose owner is proc_id. */
  method PackNext(buf: array<Cell>, ends: seq<int>, stash: Call, ghost owner: int -> int, procs: seq<int>,
                  num_rows: seq<nat>, ghost num_elements: seq<nat>, ghost bases: seq<nat>, ghost limits: seq<nat>,
                  proc_id: int, i: nat, counter: nat)
    returns (ends': seq<int>)
    requires stash.Valid() && i < |stash.rows| && counter == Prefix(stash.ncols, i)
    requires ContactsOf(stash.Ops(), owner, procs, num_rows, num_elements) && proc_id == owner(Actual(stash.rows[i]))
    requires Laid(bases, limits, num_rows, num_elements, buf.Length)
    requires |ends| == |procs| + 1
      && Packed(buf[..], ends, MessagesSoFar(stash.Ops(), i, owner, procs, num_rows), bases)
    modifies buf
    ensures |ends'| == |procs| + 1
      && Packed(buf[..], ends', MessagesSoFar(stash.Ops(), i + 1, owner, procs, num_rows), bases)
  {
    hide ContactsOf, Laid, Packed;
    ghost var ops, s := stash.Ops(), buf[..];
    IsContact(ops, owner, procs, num_rows, num_elements, i);
    var indx := BinarySearch(procs, proc_id);
    RowPacked(s, ends, ops, owner, procs, num_rows, num_elements, bases, limits, i, indx,
              NextAt(ends[indx]), NextCells(ends[indx], num_rows[indx], ops[i]));
    var in_i := PackRow(buf, ends[indx], num_rows[indx], stash, i, counter);
    ends' := ends[indx := in_i];
  }

  lemma IsContact(ops: seq<RowOp>, owner: int -> int, procs: seq<int>, num_rows: seq<nat>, num_elements: seq<nat>,
                  i: nat)
    requires ContactsOf(ops, owner, procs, num_rows, num_elements) && i < |ops|
    ensures |procs| == |num_rows| && Increasing(procs) && owner(Actual(ops[i].row)) in procs
  {
    OwnerIn(ops, |ops|, owner, procs, i);
  }

  lemma RowPacked(buf: seq<Cell>, ends: seq<int>, ops: seq<RowOp>, owner: int -> int, procs: seq<int>,
                  num_rows: seq<nat>, num_elements: seq<nat>, bases: seq<nat>, limits: seq<nat>, i: nat, k: nat,
                  at: nat, cells: seq<Cell>)
    requires ContactsOf(ops, owner, procs, num_rows, num_elements) && Laid(bases, limits, num_rows, num_elements, |buf|)
    requires i < |ops| && k < |procs| && procs[k] == owner(Actual(ops[i].row))
    requires Packed(buf, ends, MessagesSoFar(ops, i, owner, procs, num_rows), bases)
    requires at == NextAt(ends[k]) && cells == NextCells(ends[k], num_rows[k], ops[i])
    ensures at + |cells| <= |buf|
    ensures Packed(Overwrite(buf, at, cells), ends[k := at + |cells|],
      MessagesSoFar(ops, i + 1, owner, procs, num_rows), bases)
  {
    var parts := MessagesSoFar(ops, i, owner, procs, num_rows);
    MessagesNext(ops, i, owner, procs, num_rows, ends, k, parts, cells);
    MessagesFit(ops, owner, procs, num_rows, num_elements, bases, limits, |buf|, i);
    MessagesFit(ops, owner, procs, num_rows, num_elements, bases, limits, |buf|, i + 1);
    PackedNext(buf, ends, parts, bases, limits, k, at, cells, MessagesSoFar(ops, i + 1, owner, procs, num_rows));
  }

  method PackAll(buf: array<Cell>, starts: seq<int>, stash: Call, ghost owner: int -> int, procs: seq<int>,
                 num_rows: seq<nat>, ghost num_elements: seq<nat>, ghost bases: seq<nat>, ghost limits: seq<nat>,
                 us_real_proc_id: seq<int>)
    returns (ends: seq<int>)
    requires stash.Valid() && ContactsOf(stash.Ops(), owner, procs, num_rows, num_elements)
    requires |procs| == |num_rows| && |us_real_proc_id| == |stash.rows|
    requires forall i :: 0 <= i < |stash.rows| ==> us_real_proc_id[i] == owner(Actual(stash.rows[i]))
    requires Laid(bases, limits, num_rows, num_elements, buf.Length)
    requires |starts| == |procs| + 1
      && Packed(buf[..], starts, MessagesSoFar(stash.Ops(), 0, owner, procs, num_rows), bases)
    modifies buf
    ensures Packed(buf[..], ends, MessagesSoFar(stash.Ops(), |stash.rows|, owner, procs, num_rows), bases)
  {
    hide ContactsOf, Laid, Packed;
    ends := starts;
    var counter := 0;
    for i := 0 to |stash.rows|
      invariant counter == Prefix(stash.ncols, i)
      invariant |ends| == |procs| + 1
        && Packed(buf[..], ends, MessagesSoFar(stash.Ops(), i, owner, procs, num_rows), bases)
    {
      ends := PackNext(buf, ends, stash, owner, procs, num_rows, num_elements, bases, limits, us_real_proc_id[i], i,
        counter);
      counter := counter + stash.ncols[i];
    }
  }

  /** From the stash to the messages. */
  method Pack(stash: Call, owner: int -> int) returns (procs: seq<int>, buf: array<Cell>, starts: seq<int>)
    requires stash.Valid() && Monotone(owner)
    ensures fresh(buf) && Mailed(buf[..], starts, stash.Ops(), owner, procs)
  {
    hide Mailed, Monotone, Filling, Fit, Chained;
    ghost var ops := stash.Ops();
    var num_rows, num_elements, us_real_proc_id;
    procs, num_rows, num_elements, us_real_proc_id := Contact(stash.rows, stash.ncols, owner, ops);
    var negative, storage, bases, limits := NegativeStarts(num_rows, num_elements);
    buf := new Cell[storage](_ => IntCell(0));
    PackedFirst(buf[..], negative, MessagesSoFar(ops, 0, owner, procs, num_rows), bases, limits);
    var ends := PackAll(buf, negative, stash, owner, procs, num_rows, num_elements, bases, limits, us_real_proc_id);
    starts := ShiftStarts(ends, 0);
    PackedIsMailed(buf[..], ends, starts, ops, owner, procs, num_rows, num_elements, bases, limits);
  }
}
