/** Finding out which processors to contact, and how much each gets. */
module Contacts {
  import opened AuxMatrix
  import opened Messages
  import opened ColumnMap
  import opened Sorting

  ghost function Weigh(s: seq<Keyed<nat>>, n: nat, f: Keyed<nat> -> nat): nat
    requires n <= |s|
  {
    if n == 0 then 0 else Weigh(s, n - 1, f) + f(s[n - 1])
  }

  lemma {:induction false} WeighSame(s: seq<Keyed<nat>>, t: seq<Keyed<nat>>, n: nat, f: Keyed<nat> -> nat)
    requires n <= |s| && n <= |t| && forall i :: 0 <= i < n ==> s[i] == t[i]
    ensures Weigh(s, n, f) == Weigh(t, n, f)
  {
    if n > 0 { WeighSame(s, t, n - 1, f); }
  }

  /** Overwriting cell k with the last cell and dropping that takes away k's weight. */
  lemma {:induction false} WeighWithout(s: seq<Keyed<nat>>, n: nat, k: nat, y: Keyed<nat>, f: Keyed<nat> -> nat)
    requires k < n <= |s|
    ensures Weigh(s[k := y], n, f) + f(s[k]) == Weigh(s, n, f) + f(y)
  {
    if k < n - 1 { WeighWithout(s, n - 1, k, y, f); } else { WeighSame(s, s[k := y], k, f); }
  }

  /** Sums do not depend on the order. */
  lemma {:induction false} WeighRearranged(s: seq<Keyed<nat>>, t: seq<Keyed<nat>>, n: nat, f: Keyed<nat> -> nat)
    requires n <= |s| && n <= |t| && forall x :: Count(s, 0, n, x) == Count(t, 0, n, x)
    ensures Weigh(s, n, f) == Weigh(t, n, f)
    decreases n
  {
    if n > 0 {
      var m, x := n - 1, s[n - 1];
      CountHas(t, 0, n, x);
      CountHas(s, 0, n, x);
      var k :| 0 <= k < n && t[k] == x;
      var t' := t[k := t[n - 1]];
      forall y ensures Count(s, 0, m, y) == Count(t', 0, m, y) {
        CountUpdate(t, 0, n, k, t[n - 1], y);
      }
      WeighRearranged(s, t', m, f);
      WeighWithout(t, n, k, t[n - 1], f);
    }
  }

  lemma {:induction false} WeighZero(s: seq<Keyed<nat>>, n: nat, f: Keyed<nat> -> nat)
    requires n <= |s| && forall i :: 0 <= i < n ==> f(s[i]) == 0
    ensures Weigh(s, n, f) == 0
  {
    if n > 0 { WeighZero(s, n - 1, f); }
  }

  /** What a row, known by its number and its place in the stash, adds to processor p's rows ... */
  function RowOnes(owner: int -> int, p: int): Keyed<nat> -> nat {
    (x: Keyed<nat>) => if owner(x.key) == p then 1 else 0
  }

  /** ... and to its elements. */
  function RowSizes(owner: int -> int, lens: seq<nat>, p: int): Keyed<nat> -> nat {
    (x: Keyed<nat>) => if owner(x.key) == p && x.val < |lens| then lens[x.val] else 0
  }

  /** Row numbers without their signs, each with its place. */
  function Places(ops: seq<RowOp>): (r: seq<Keyed<nat>>)
    ensures |r| == |ops| && forall i :: 0 <= i < |ops| ==> r[i] == Keyed(Actual(ops[i].row), i)
  {
    seq(|ops|, i requires 0 <= i < |ops| => Keyed(Actual(ops[i].row), i))
  }

  function Sizes(ops: seq<RowOp>): (r: seq<nat>)
    ensures |r| == |ops| && forall i :: 0 <= i < |ops| ==> r[i] == |ops[i].us|
  {
    seq(|ops|, i requires 0 <= i < |ops| => |ops[i].us|)
  }

  lemma {:induction false} WeighIs(ops: seq<RowOp>, ps: seq<Keyed<nat>>, lens: seq<nat>, owner: int -> int, p: int,
                                   n: nat)
    requires n <= |ops| && ps == Places(ops) && lens == Sizes(ops)
    ensures Weigh(ps, n, RowOnes(owner, p)) == |RowsFor(ops, n, owner, p)|
    ensures Weigh(ps, n, RowSizes(owner, lens, p)) == Elements(RowsFor(ops, n, owner, p))
  {
    if n > 0 {
      var k := n - 1;
      WeighIs(ops, ps, lens, owner, p, k);
      RowsForNext(ops, owner, p, k);
      assert ps[k] == Keyed(Actual(ops[k].row), k) && lens[k] == |ops[k].us|;
      assert RowOnes(owner, p)(ps[k]) == if owner(Actual(ops[k].row)) == p then 1 else 0;
      assert RowSizes(owner, lens, p)(ps[k]) == if owner(Actual(ops[k].row)) == p then |ops[k].us| else 0;
    }
  }

  /** The lookup sends larger row numbers to no lower ranks: processors own consecutive ranges of rows. */
  ghost predicate Monotone(owner: int -> int) { forall a, b :: a <= b ==> owner(a) <= owner(b) }

  /** The processors found so far, with their rows and elements among the first i sorted rows. */
  ghost predicate Tally(s: seq<Keyed<nat>>, i: nat, owner: int -> int, lens: seq<nat>, procs: seq<int>, rows: seq<nat>,
                        elems: seq<nat>) {
    && i <= |s| && |procs| == |rows| == |elems| && Increasing(procs)
    && (forall j :: 0 <= j < i ==> owner(s[j].key) in procs)
    && (forall k :: 0 <= k < |procs| ==> (i > 0 && procs[k] <= owner(s[i - 1].key)))
    && (forall k :: 0 <= k < |procs| ==> rows[k] == Weigh(s, i, RowOnes(owner, procs[k])) > 0)
    && (forall k :: 0 <= k < |procs| ==> elems[k] == Weigh(s, i, RowSizes(owner, lens, procs[k])))
  }

  /** Adding row i to the last processor, which owns it too. */
  lemma TallySame(s: seq<Keyed<nat>>, i: nat, owner: int -> int, lens: seq<nat>, procs: seq<int>, rows: seq<nat>,
                  elems: seq<nat>)
    requires Tally(s, i, owner, lens, procs, rows, elems) && i < |s| && s[i].val < |lens|
    requires procs != [] && procs[|procs| - 1] == owner(s[i].key)
    ensures var c := |procs| - 1;
      Tally(s, i + 1, owner, lens, procs, rows[c := rows[c] + 1], elems[c := elems[c] + lens[s[i].val]])
  {}

  /** Row i belongs to a processor not seen before. */
  lemma TallyNew(s: seq<Keyed<nat>>, i: nat, owner: int -> int, lens: seq<nat>, procs: seq<int>, rows: seq<nat>,
                 elems: seq<nat>)
    requires Tally(s, i, owner, lens, procs, rows, elems) && i < |s| && s[i].val < |lens|
    requires forall k :: 0 <= k < |procs| ==> procs[k] < owner(s[i].key)
    ensures Tally(s, i + 1, owner, lens, procs + [owner(s[i].key)], rows + [1], elems + [lens[s[i].val]])
  {
    var p := owner(s[i].key);
    forall j | 0 <= j < i ensures owner(s[j].key) != p {
      var k :| 0 <= k < |procs| && procs[k] == owner(s[j].key);
    }
    WeighZero(s, i, RowOnes(owner, p));
    WeighZero(s, i, RowSizes(owner, lens, p));
  }

  /** How many rows and elements go to each real owner; `s` are the rows sorted by number. */
  method CountContacts(s: seq<Keyed<nat>>, owner: int -> int, lens: seq<nat>)
    returns (procs: seq<int>, num_rows: seq<nat>, num_elements: seq<nat>)
    requires Monotone(owner) && SortedFrom(s, 0, |s|) && forall i :: 0 <= i < |s| ==> s[i].val < |lens|
    ensures Tally(s, |s|, owner, lens, procs, num_rows, num_elements)
  {
    procs, num_rows, num_elements := [], [], [];
    for i := 0 to |s|
      invariant Tally(s, i, owner, lens, procs, num_rows, num_elements)
      invariant i > 0 ==> procs != [] && procs[|procs| - 1] == owner(s[i - 1].key)
    {
      var counter, real_proc_id := |procs| - 1, owner(s[i].key);
      if i > 0 { assert s[i - 1].key <= s[i].key; }
      if i > 0 && real_proc_id == procs[counter] {
        TallySame(s, i, owner, lens, procs, num_rows, num_elements);
        num_rows := num_rows[counter := num_rows[counter] + 1];
        num_elements := num_elements[counter := num_elements[counter] + lens[s[i].val]];
      } else {
        TallyNew(s, i, owner, lens, procs, num_rows, num_elements);
        procs, num_rows, num_elements := procs + [real_proc_id], num_rows + [1], num_elements + [lens[s[i].val]];
      }
    }
  }

  /** The owners of the first n stashed rows are among the processors. */
  ghost predicate OwnersIn(ops: seq<RowOp>, n: nat, owner: int -> int, procs: seq<int>)
    requires n <= |ops|
  {
    n == 0 || (OwnersIn(ops, n - 1, owner, procs) && owner(Actual(ops[n - 1].row)) in procs)
  }

  lemma {:induction false} OwnerIn(ops: seq<RowOp>, n: nat, owner: int -> int, procs: seq<int>, i: nat)
    requires i < n <= |ops| && OwnersIn(ops, n, owner, procs)
    ensures owner(Actual(ops[i].row)) in procs
  {
    if i < n - 1 { OwnerIn(ops, n - 1, owner, procs, i); }
  }

  /** The processors to contact, and exactly the rows and elements the stash has for each of them. */
  ghost predicate ContactsOf(ops: seq<RowOp>, owner: int -> int, procs: seq<int>, num_rows: seq<nat>,
                             num_elements: seq<nat>) {
    && |procs| == |num_rows| == |num_elements| && Increasing(procs)
    && OwnersIn(ops, |ops|, owner, procs)
    && CountsOf(ops, owner, procs, num_rows, num_elements, |procs|)
  }

  ghost predicate CountsOf(ops: seq<RowOp>, owner: int -> int, procs: seq<int>, num_rows: seq<nat>,
                           num_elements: seq<nat>, n: nat)
    requires n <= |procs| == |num_rows| == |num_elements|
  {
    n == 0 ||
    (&& CountsOf(ops, owner, procs, num_rows, num_elements, n - 1)
     && CountIs(RowsFor(ops, |ops|, owner, procs[n - 1]), num_rows[n - 1], num_elements[n - 1]))
  }

  ghost predicate CountIs(rs: seq<RowOp>, rows: nat, elements: nat) { |rs| == rows > 0 && Elements(rs) == elements }

  lemma {:induction false} CountsAt(ops: seq<RowOp>, owner: int -> int, procs: seq<int>, num_rows: seq<nat>,
                                    num_elements: seq<nat>, n: nat, k: nat)
    requires k < n <= |procs| == |num_rows| == |num_elements| && CountsOf(ops, owner, procs, num_rows, num_elements, n)
    ensures CountIs(RowsFor(ops, |ops|, owner, procs[k]), num_rows[k], num_elements[k])
  {
    if k < n - 1 { CountsAt(ops, owner, procs, num_rows, num_elements, n - 1, k); }
  }

  /** Tallies over the sorted rows are those over the stash. */
  lemma TallyIsContacts(s: seq<Keyed<nat>>, ops: seq<RowOp>, owner: int -> int, procs: seq<int>, rows: seq<nat>,
                        elems: seq<nat>)
    requires Tally(s, |s|, owner, Sizes(ops), procs, rows, elems) && Rearranged(Places(ops), s, 0, |ops|)
    ensures ContactsOf(ops, owner, procs, rows, elems)
  {
    AllOwnersIn(s, ops, |ops|, owner, procs);
    TallyIsCounts(s, ops, owner, procs, rows, elems, |procs|);
  }

  lemma {:induction false} TallyIsCounts(s: seq<Keyed<nat>>, ops: seq<RowOp>, owner: int -> int, procs: seq<int>,
                                         rows: seq<nat>, elems: seq<nat>, n: nat)
    requires Tally(s, |s|, owner, Sizes(ops), procs, rows, elems) && Rearranged(Places(ops), s, 0, |ops|)
      && n <= |procs|
    ensures CountsOf(ops, owner, procs, rows, elems, n)
  {
    if n > 0 {
      TallyIsCounts(s, ops, owner, procs, rows, elems, n - 1);
      var ps, p := Places(ops), procs[n - 1];
      WeighIs(ops, ps, Sizes(ops), owner, p, |ops|);
      WeighRearranged(ps, s, |ops|, RowOnes(owner, p));
      WeighRearranged(ps, s, |ops|, RowSizes(owner, Sizes(ops), p));
    }
  }

  lemma {:induction false} AllOwnersIn(s: seq<Keyed<nat>>, ops: seq<RowOp>, n: nat, owner: int -> int, procs: seq<int>)
    requires n <= |ops| && Rearranged(Places(ops), s, 0, |ops|) && forall j :: 0 <= j < |s| ==> owner(s[j].key) in procs
    ensures OwnersIn(ops, n, owner, procs)
  {
    if n > 0 {
      AllOwnersIn(s, ops, n - 1, owner, procs);
      var ps := Places(ops);
      CountHas(ps, 0, |ops|, ps[n - 1]);
      CountHas(s, 0, |ops|, ps[n - 1]);
      var j :| 0 <= j < |s| && s[j] == ps[n - 1];
      assert owner(s[j].key) in procs;
    }
  }

  /** Un-sorting the owners: us_real_proc_id[orig_order[i]] = real_proc_id[i]. */
  method Unsort(s: seq<Keyed<nat>>, owner: int -> int, ghost ops: seq<RowOp>) returns (us_real_proc_id: seq<int>)
    requires |s| == |ops| && Rearranged(Places(ops), s, 0, |ops|)
    ensures |us_real_proc_id| == |ops| && forall i :: 0 <= i < |ops| ==> us_real_proc_id[i] == owner(Actual(ops[i].row))
  {
    us_real_proc_id := seq(|s|, _ => 0);
    ghost var ps := Places(ops);
    for i := 0 to |s|
      invariant |us_real_proc_id| == |s|
      invariant forall j ::
        0 <= j < i ==> s[j].val < |s| && us_real_proc_id[s[j].val] == owner(Actual(ops[s[j].val].row))
    {
      ghost var k := FromPlaces(s, ops, i);
      us_real_proc_id := us_real_proc_id[s[i].val := owner(s[i].key)];
    }
    forall i | 0 <= i < |ops| ensures us_real_proc_id[i] == owner(Actual(ops[i].row)) {
      CountHas(ps, 0, |ops|, ps[i]);
      CountHas(s, 0, |ops|, ps[i]);
      var j :| 0 <= j < |s| && s[j] == ps[i];
    }
  }

  lemma FromPlaces(s: seq<Keyed<nat>>, ops: seq<RowOp>, i: nat) returns (k: nat)
    requires |s| == |ops| && Rearranged(Places(ops), s, 0, |ops|) && i < |s|
    ensures k < |ops| && s[i] == Keyed(Actual(ops[k].row), k)
  {
    var ps := Places(ops);
    CountHas(s, 0, |ops|, s[i]);
    CountHas(ps, 0, |ops|, s[i]);
    k :| 0 <= k < |ps| && ps[k] == s[i];
  }

  /** From the stash to the contact list: sort the rows by number, count per owner, and un-sort the owners. */
  method Contact(rows: seq<int>, lens: seq<nat>, owner: int -> int, ghost ops: seq<RowOp>)
    returns (procs: seq<int>, num_rows: seq<nat>, num_elements: seq<nat>, us_real_proc_id: seq<int>)
    requires Monotone(owner) && |rows| == |ops| && lens == Sizes(ops)
      && forall i :: 0 <= i < |ops| ==> rows[i] == ops[i].row
    ensures ContactsOf(ops, owner, procs, num_rows, num_elements)
    ensures |us_real_proc_id| == |ops| && forall i :: 0 <= i < |ops| ==> us_real_proc_id[i] == owner(Actual(rows[i]))
  {
    var row_list := new Keyed<nat>[|rows|](i requires 0 <= i < |rows| => Keyed(Actual(rows[i]), i));
    assert row_list[..] == Places(ops);
    Quicksort(row_list, 0, |rows| - 1);
    var s := row_list[..];
    forall i | 0 <= i < |s| ensures s[i].val < |ops| { var k := FromPlaces(s, ops, i); }
    procs, num_rows, num_elements := CountContacts(s, owner, lens);
    TallyIsContacts(s, ops, owner, procs, num_rows, num_elements);
    us_real_proc_id := Unsort(s, owner, ops);
  }
}
