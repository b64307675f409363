/** The receiving side: keeping messages as they come (hypre_FillResponseIJOffProcVals), then unpacking
    them in the order of the senders' ranks. */
module Unpacking {
  import opened Basics
  import opened SparseRows
  import opened AuxMatrix
  import opened Messages

  datatype Message = Message(from: int, cells: seq<Cell>)

  /** The first n messages as they are kept: sender, start, and cells up to the next start. */
  ghost predicate Kept(id: seq<int>, starts: seq<int>, elements: seq<Cell>, msgs: seq<Message>, n: nat)
    requires n <= |msgs| && n <= |id| && n < |starts|
  {
    if n == 0 then starts[0] == 0
    else
      && Kept(id, starts, elements, msgs, n - 1)
      && KeptOne(id[n - 1], starts[n - 1], starts[n], elements, msgs[n - 1])
  }

  ghost predicate KeptOne(id: int, lo: int, hi: int, elements: seq<Cell>, msg: Message) {
    id == msg.from && 0 <= lo <= hi <= |elements| && elements[lo..hi] == msg.cells
  }

  lemma {:induction false} KeptStarts(id: seq<int>, starts: seq<int>, elements: seq<Cell>, msgs: seq<Message>, n: nat)
    requires n <= |msgs| && n <= |id| && n < |starts| && Kept(id, starts, elements, msgs, n)
    ensures 0 <= starts[n] <= |elements|
  {}

  /** Later cells do not matter. */
  lemma {:induction false} KeptStays(id: seq<int>, starts: seq<int>, elements: seq<Cell>, msgs: seq<Message>, n: nat,
                                     id': seq<int>, starts': seq<int>, elements': seq<Cell>, msgs': seq<Message>,
                                     end: nat)
    requires n <= |msgs| && n <= |id| && n < |starts| && Kept(id, starts, elements, msgs, n)
    requires n <= |msgs'| && n <= |id'| && n < |starts'| && starts[n] <= end <= |elements| && end <= |elements'|
    requires forall k :: 0 <= k < n ==> id[k] == id'[k] && msgs[k] == msgs'[k]
    requires forall k :: 0 <= k <= n ==> starts[k] == starts'[k]
    requires forall k :: 0 <= k < end ==> elements[k] == elements'[k]
    ensures Kept(id', starts', elements', msgs', n)
  {
    if n > 0 {
      KeptStays(id, starts, elements, msgs, n - 1, id', starts', elements', msgs', end);
      var lo, hi := starts[n - 1], starts[n];
      assert elements[lo..hi] == elements'[lo..hi];
    }
  }

  lemma {:induction false} KeptAt(id: seq<int>, starts: seq<int>, elements: seq<Cell>, msgs: seq<Message>, n: nat,
                                  k: nat)
    requires k < n <= |msgs| && n <= |id| && n < |starts| && Kept(id, starts, elements, msgs, n)
    ensures KeptOne(id[k], starts[k], starts[k + 1], elements, msgs[k])
  {
    if k < n - 1 { KeptAt(id, starts, elements, msgs, n - 1, k); }
  }

  method CopyIn(a: array<Cell>, at: nat, cells: seq<Cell>)
    requires at + |cells| <= a.Length
    modifies a
    ensures a[..] == Overwrite(old(a[..]), at, cells)
  {
    for k := 0 to |cells|
      invariant forall j :: at <= j < at + k ==> a[j] == cells[j - at]
      invariant forall j :: 0 <= j < a.Length && !(at <= j < at + k) ==> a[j] == old(a[j])
    {
      a[at + k] := cells[k];
    }
  }

  /** hypre_ProcListElements: senders, starts and cells of the messages received so far, in growing arrays. */
  class Inbox {
    var length: nat
    var id: array<int>
    var vec_starts: array<int>
    var v_elements: array<Cell>
    ghost var msgs: seq<Message>

    ghost predicate Valid()
      reads this, id, vec_starts, v_elements
    {
      && |msgs| == length < id.Length == vec_starts.Length && id != vec_starts
      && Kept(id[..], vec_starts[..], v_elements[..], msgs, length)
    }

    constructor (storage_length: nat, element_storage_length: nat)
      ensures Valid() && msgs == [] && fresh(id) && fresh(vec_starts) && fresh(v_elements)
    {
      length := 0;
      id := new int[storage_length + 1];
      vec_starts := new int[storage_length + 1];
      v_elements := new Cell[element_storage_length](_ => IntCell(0));
      msgs := [];
      new;
      vec_starts[0] := 0;
    }

    /** Room for 20 more contacts. */
    method GrowContacts()
      requires Valid()
      modifies this
      ensures Valid() && msgs == old(msgs) && length == old(length) && id.Length == old(id.Length) + 20
      ensures fresh(id) && fresh(vec_starts) && v_elements == old(v_elements)
    {
      ghost var id0, starts0 := id[..], vec_starts[..];
      var i, s := new int[id.Length + 20], new int[id.Length + 20];
      for k := 0 to id.Length
        invariant unchanged(this) && forall j :: 0 <= j < k ==> i[j] == id[j] && s[j] == vec_starts[j]
      {
        i[k], s[k] := id[k], vec_starts[k];
      }
      KeptStarts(id0, starts0, v_elements[..], msgs, length);
      KeptStays(id0, starts0, v_elements[..], msgs, length, i[..], s[..], v_elements[..], msgs, v_elements.Length);
      id, vec_starts := i, s;
    }

    /** Room for the message, at least 100 cells more than are in use. */
    method GrowElements(index: nat, contact_size: nat)
      requires Valid() && index == vec_starts[length]
      modifies this
      ensures Valid() && msgs == old(msgs) && length == old(length) && id == old(id) && vec_starts == old(vec_starts)
      ensures fresh(v_elements) && v_elements.Length >= index + contact_size
    {
      var elength := (if contact_size < 100 then 100 else contact_size) + index;
      ghost var cells := v_elements[..];
      KeptStarts(id[..], vec_starts[..], cells, msgs, length);
      var e := new Cell[elength](_ => IntCell(0));
      for k := 0 to index
        invariant unchanged(this) && forall j :: 0 <= j < k ==> e[j] == v_elements[j]
      {
        e[k] := v_elements[k];
      }
      KeptStays(id[..], vec_starts[..], cells, msgs, length, id[..], vec_starts[..], e[..], msgs, index);
      v_elements := e;
    }

    /** hypre_FillResponseIJOffProcVals: one more message, from contact_proc. */
    method FillResponse(contact_proc: int, contact: seq<Cell>)
      requires Valid()
      modifies this, id, vec_starts, v_elements
      ensures Valid() && msgs == old(msgs) + [Message(contact_proc, contact)]
      ensures id == old(id) || fresh(id)
      ensures vec_starts == old(vec_starts) || fresh(vec_starts)
      ensures v_elements == old(v_elements) || fresh(v_elements)
    {
      if length == id.Length - 1 { GrowContacts(); }
      var index := vec_starts[length];
      KeptStarts(id[..], vec_starts[..], v_elements[..], msgs, length);
      if v_elements.Length < index + |contact| { GrowElements(index, |contact|); }
      Append(contact_proc, contact, index);
    }

    method Append(contact_proc: int, contact: seq<Cell>, index: nat)
      requires Valid() && length < id.Length - 1 && index == vec_starts[length]
        && index + |contact| <= v_elements.Length
      modifies this, id, vec_starts, v_elements
      ensures Valid() && msgs == old(msgs) + [Message(contact_proc, contact)]
      ensures id == old(id) && vec_starts == old(vec_starts) && v_elements == old(v_elements)
    {
      ghost var id0, starts0, cells0, msgs0 := id[..], vec_starts[..], v_elements[..], msgs;
      id[length] := contact_proc;
      CopyIn(v_elements, index, contact);
      vec_starts[length + 1] := index + |contact|;
      msgs := msgs + [Message(contact_proc, contact)];
      KeptStays(id0, starts0, cells0, msgs0, length, id[..], vec_starts[..], v_elements[..], msgs, index);
      assert v_elements[index..index + |contact|] == contact;
      length := length + 1;
    }
  }

  // ------------------------------------------------------------------ unpacking

  /** The cells of a row, one by one. */
  lemma RowCells(elements: seq<Cell>, at: nat, op: RowOp)
    requires at + |EncodeRow(op)| <= |elements| && elements[at..at + |EncodeRow(op)|] == EncodeRow(op)
    ensures elements[at] == IntCell(op.row) && elements[at + 1] == IntCell(|op.us|)
    ensures forall k :: 0 <= k < |op.us| ==> elements[at + 2 + k] == IntCell(op.us[k].col)
    ensures forall k :: 0 <= k < |op.us| ==> elements[at + 2 + |op.us| + k] == RealCell(op.us[k].val)
  {
    var n, e := |op.us|, EncodeRow(op);
    forall k | 0 <= k < |e| ensures elements[at + k] == e[k] { assert elements[at..at + |e|][k] == elements[at + k]; }
    assert e[0] == IntCell(op.row) && e[1] == IntCell(n);
    forall k | 0 <= k < n ensures elements[at + 2 + k] == IntCell(op.us[k].col) {
      assert e[2 + k] == ColCells(op.us)[k];
    }
    forall k | 0 <= k < n ensures elements[at + 2 + n + k] == RealCell(op.us[k].val) {
      assert e[2 + n + k] == ValCells(op.us)[k];
    }
  }

  /** Reading one row of a message. */
  method ReadRow(elements: seq<Cell>, at: nat, ghost op: RowOp)
    returns (row: int, n: nat, cols: seq<int>, values: seq<real>)
    requires at + |EncodeRow(op)| <= |elements| && elements[at..at + |EncodeRow(op)|] == EncodeRow(op)
    ensures |cols| == |values| == n && op == RowOp(row, Stretch(cols, values, 0, n))
  {
    RowCells(elements, at, op);
    row, n := elements[at].i, elements[at + 1].i;
    cols, values := [], [];
    for k := 0 to n
      invariant |cols| == k && forall j :: 0 <= j < k ==> cols[j] == op.us[j].col
    {
      cols := cols + [elements[at + 2 + k].i];
    }
    for k := 0 to n
      invariant |values| == k && forall j :: 0 <= j < k ==> values[j] == op.us[j].val
    {
      values := values + [elements[at + 2 + n + k].r];
    }
    assert op.us == Stretch(cols, values, 0, n);
  }

  /** Rows encoded earlier are where they were. */
  lemma {:induction false} EncodePrefix(ops: seq<RowOp>, j: nat)
    requires j <= |ops|
    ensures EncodeRows(ops[..j]) <= EncodeRows(ops)
    decreases |ops|
  {
    if j == |ops| {
      assert ops[..j] == ops;
    } else {
      assert ops[..|ops| - 1][..j] == ops[..j];
      EncodePrefix(ops[..|ops| - 1], j);
    }
  }

  lemma EncodeNext(ops: seq<RowOp>, j: nat)
    requires j < |ops|
    ensures EncodeRows(ops[..j + 1]) == EncodeRows(ops[..j]) + EncodeRow(ops[j])
  {
    assert ops[..j + 1][..j] == ops[..j];
  }

  /** After the number of rows come the rows. */
  lemma BodyAt(elements: seq<Cell>, lo: nat, hi: nat, ops: seq<RowOp>, i: nat)
    requires lo <= hi <= |elements| && elements[lo..hi] == Encode(ops)
    ensures hi == lo + 1 + |EncodeRows(ops)|
    ensures i < |EncodeRows(ops)| ==> elements[lo + 1 + i] == EncodeRows(ops)[i]
  {
    if i < |EncodeRows(ops)| { assert elements[lo + 1 + i] == elements[lo..hi][1 + i]; }
  }

  lemma CountAt(elements: seq<Cell>, lo: nat, hi: nat, ops: seq<RowOp>)
    requires lo <= hi <= |elements| && elements[lo..hi] == Encode(ops)
    ensures lo < hi && elements[lo] == IntCell(|ops|) && EncodeRows(ops[..0]) == []
  {
    assert elements[lo] == elements[lo..hi][0];
  }

  /** Where row j of a message is. */
  lemma PlaceInMessage(elements: seq<Cell>, lo: nat, hi: nat, ops: seq<RowOp>, j: nat, at: nat)
    requires lo <= hi <= |elements| && elements[lo..hi] == Encode(ops) && j < |ops|
    requires at == lo + 1 + |EncodeRows(ops[..j])|
    ensures at + |EncodeRow(ops[j])| <= hi && elements[at..at + |EncodeRow(ops[j])|] == EncodeRow(ops[j])
    ensures at + |EncodeRow(ops[j])| == lo + 1 + |EncodeRows(ops[..j + 1])|
  {
    hide Encode, EncodeRows, EncodeRow;
    EncodePrefix(ops, j + 1);
    EncodeNext(ops, j);
    BodyAt(elements, lo, hi, ops, 0);
    var whole, before, after, row := EncodeRows(ops), EncodeRows(ops[..j]), EncodeRows(ops[..j + 1]), EncodeRow(ops[j]);
    forall k | 0 <= k < |row| ensures elements[at + k] == row[k] {
      BodyAt(elements, lo, hi, ops, |before| + k);
      assert whole[|before| + k] == after[|before| + k];
    }
  }

  /** One row of a message. */
  method UnpackRow(elements: seq<Cell>, at: nat, mat: RowMatrix, ghost op: RowOp) returns (next: nat)
    requires at + |EncodeRow(op)| <= |elements| && elements[at..at + |EncodeRow(op)|] == EncodeRow(op) && mat.Valid()
    modifies mat.Repr
    ensures mat.Valid() && fresh(mat.Repr - old(mat.Repr)) && next == at + |EncodeRow(op)|
    ensures mat.Contents() == ApplyOp(true, old(mat.Contents()), mat.first, op)
  {
    hide EncodeRow, RowMatrix.Valid, RowMatrix.Contents, ApplyOp;
    var row, n, cols, values := ReadRow(elements, at, op);
    mat.SetRow(true, row, cols, values, 0, n);
    next := at + 2 + 2 * n;
  }

  /** One message: its rows are added to the matrix, in order. */
  method UnpackMessage(elements: seq<Cell>, lo: nat, ghost hi: nat, mat: RowMatrix, ghost ops: seq<RowOp>)
    requires lo < hi <= |elements| && elements[lo..hi] == Encode(ops) && mat.Valid()
    modifies mat.Repr
    ensures mat.Valid() && fresh(mat.Repr - old(mat.Repr))
    ensures mat.Contents() == ApplyOps(true, old(mat.Contents()), mat.first, ops)
  {
    ghost var m := mat.Contents();
    hide Encode, EncodeRows, EncodeRow, RowMatrix.Valid, RowMatrix.Contents, ApplyOp, ApplyOps;
    CountAt(elements, lo, hi, ops);
    ApplyNone(true, m, mat.first, ops);
    var num_rows, indx := elements[lo].i, lo + 1;
    for j := 0 to num_rows
      invariant indx == lo + 1 + |EncodeRows(ops[..j])|
      invariant mat.Valid() && fresh(mat.Repr - old(mat.Repr))
      invariant mat.Contents() == ApplyOps(true, m, mat.first, ops[..j])
    {
      PlaceInMessage(elements, lo, hi, ops, j, indx);
      ApplyOpsSnoc(true, m, mat.first, ops, j);
      indx := UnpackRow(elements, indx, mat, ops[j]);
    }
    assert ops[..num_rows] == ops;
  }
}
