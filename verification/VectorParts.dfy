module VectorParts {
  // One rank's part of a vector, with the stash of contributions to components of other ranks.

  datatype Contribution = Contribution(index: int, value: real)

  /** What the first n of a list of contributions add to component g. */
  function SumTo(cs: seq<Contribution>, n: nat, g: int): real
    requires n <= |cs|
  {
    if n == 0 then 0.0 else SumTo(cs, n - 1, g) + (if cs[n - 1].index == g then cs[n - 1].value else 0.0)
  }

  function SumAt(cs: seq<Contribution>, g: int): real { SumTo(cs, |cs|, g) }

  lemma {:induction false} SumToSame(a: seq<Contribution>, b: seq<Contribution>, n: nat, g: int)
    requires n <= |a| && n <= |b| && forall k :: 0 <= k < n ==> a[k] == b[k]
    ensures SumTo(a, n, g) == SumTo(b, n, g)
  {
    if n > 0 { SumToSame(a, b, n - 1, g); }
  }

  lemma SumAtConcat(a: seq<Contribution>, b: seq<Contribution>, g: int)
    ensures SumAt(a + b, g) == SumAt(a, g) + SumAt(b, g)
  {
    SumToConcat(a, b, |b|, g);
  }

  lemma {:induction false} SumToConcat(a: seq<Contribution>, b: seq<Contribution>, n: nat, g: int)
    requires n <= |b|
    ensures SumTo(a + b, |a| + n, g) == SumAt(a, g) + SumTo(b, n, g)
  {
    if n == 0 { SumToSame(a + b, a, |a|, g); } else { SumToConcat(a, b, n - 1, g); }
  }

  lemma SumAtSnoc(a: seq<Contribution>, c: Contribution, g: int)
    ensures SumAt(a + [c], g) == SumAt(a, g) + (if c.index == g then c.value else 0.0)
  {
    SumToSame(a + [c], a, |a|, g);
  }

  /** The contributions that are not cancelled, in order. */
  function Live(cs: seq<Contribution>, n: nat): seq<Contribution>
    requires n <= |cs|
  {
    if n == 0 then [] else Live(cs, n - 1) + (if cs[n - 1].index != -1 then [cs[n - 1]] else [])
  }

  lemma NoneLive(cs: seq<Contribution>)
    ensures Live(cs, 0) == []
  {}

  lemma LiveLast(cs: seq<Contribution>, n: nat)
    requires 0 < n <= |cs|
    ensures Live(cs, n) == Live(cs, n - 1) + (if cs[n - 1].index != -1 then [cs[n - 1]] else [])
  {}

  lemma {:induction false} LiveSum(cs: seq<Contribution>, n: nat, g: int)
    requires n <= |cs| && g != -1
    ensures |Live(cs, n)| <= n && SumAt(Live(cs, n), g) == SumTo(cs, n, g)
    ensures forall k :: 0 <= k < |Live(cs, n)| ==> Live(cs, n)[k].index != -1
  {
    if n > 0 {
      LiveSum(cs, n - 1, g);
      if cs[n - 1].index != -1 {
        SumAtSnoc(Live(cs, n - 1), cs[n - 1], g);
      } else {
        assert Live(cs, n) == Live(cs, n - 1);
      }
    }
  }

  /** Those of the first n contributions that are not to components lo, ..., lo + size - 1, in order. */
  function Foreign(cs: seq<Contribution>, n: nat, lo: int, size: nat): seq<Contribution>
    requires n <= |cs|
  {
    if n == 0 then []
      else Foreign(cs, n - 1, lo, size) + (if lo <= cs[n - 1].index < lo + size then [] else [cs[n - 1]])
  }

  /** The values d of those components after the first n contributions. */
  function Added(d: seq<real>, cs: seq<Contribution>, n: nat, lo: int): (r: seq<real>)
    requires n <= |cs|
    ensures |r| == |d|
  {
    if n == 0 then d
    else
      var r, c := Added(d, cs, n - 1, lo), cs[n - 1];
      if lo <= c.index < lo + |d| then r[c.index - lo := r[c.index - lo] + c.value] else r
  }

  /** Added or stashed: component g grows by exactly what is contributed to it. */
  lemma {:induction false} NothingLost(d: seq<real>, cs: seq<Contribution>, n: nat, lo: int, g: int)
    requires n <= |cs|
    ensures SumAt(Foreign(cs, n, lo, |d|), g) + (if lo <= g < lo + |d| then Added(d, cs, n, lo)[g - lo] else 0.0)
         == SumTo(cs, n, g) + (if lo <= g < lo + |d| then d[g - lo] else 0.0)
  {
    if n > 0 {
      NothingLost(d, cs, n - 1, lo, g);
      var before, c := Foreign(cs, n - 1, lo, |d|), cs[n - 1];
      if lo <= c.index < lo + |d| { assert before + [] == before; } else { SumAtSnoc(before, c, g); }
    }
  }

  lemma {:induction false} ForeignHas(cs: seq<Contribution>, n: nat, lo: int, size: nat, c: Contribution)
    requires n <= |cs| && c in Foreign(cs, n, lo, size)
    ensures c in cs && !(lo <= c.index < lo + size)
  {
    if n > 0 && !(cs[n - 1] == c && !(lo <= c.index < lo + size)) { ForeignHas(cs, n - 1, lo, size, c); }
  }

  /** How many of the first n contributions are to component i. */
  function Hits(cs: seq<Contribution>, n: nat, i: int): nat
    requires n <= |cs|
  {
    if n == 0 then 0 else Hits(cs, n - 1, i) + (if cs[n - 1].index == i then 1 else 0)
  }

  /** Whether one of the first n contributions is to component g, ... */
  function Names(cs: seq<Contribution>, n: nat, g: int): bool
    requires n <= |cs|
  {
    n > 0 && (cs[n - 1].index == g || Names(cs, n - 1, g))
  }

  /** ... and the last value they give for it. */
  function LastAt(cs: seq<Contribution>, n: nat, g: int): real
    requires n <= |cs|
  {
    if n == 0 then 0.0 else if cs[n - 1].index == g then cs[n - 1].value else LastAt(cs, n - 1, g)
  }

  /** The values d of components lo, ..., lo + |d| - 1 after setting the first n contributions. */
  function Assigned(d: seq<real>, cs: seq<Contribution>, n: nat, lo: int): (r: seq<real>)
    requires n <= |cs|
    ensures |r| == |d|
  {
    if n == 0 then d
    else
      var r, c := Assigned(d, cs, n - 1, lo), cs[n - 1];
      if lo <= c.index < lo + |d| then r[c.index - lo := c.value] else r
  }

  lemma {:induction false} AssignedAt(d: seq<real>, cs: seq<Contribution>, n: nat, lo: int, g: int)
    requires n <= |cs| && lo <= g < lo + |d|
    ensures Assigned(d, cs, n, lo)[g - lo] == if Names(cs, n, g) then LastAt(cs, n, g) else d[g - lo]
  {
    if n > 0 { AssignedAt(d, cs, n - 1, lo, g); }
  }

  /** The contributions with those to component i cancelled. */
  function Marked(cs: seq<Contribution>, i: int): (r: seq<Contribution>)
    ensures |r| == |cs|
    ensures forall k :: 0 <= k < |cs| ==> r[k] == if cs[k].index == i then Contribution(-1, cs[k].value) else cs[k]
  {
    seq(|cs|, k requires 0 <= k < |cs| => if cs[k].index == i then Contribution(-1, cs[k].value) else cs[k])
  }

  /** The stash after setting the first n contributions: what it holds for components that are not
      lo, ..., lo + size - 1 and are to be set is cancelled. */
  function Unstashed(stash: seq<Contribution>, cs: seq<Contribution>, n: nat, lo: int, size: nat)
    : (r: seq<Contribution>)
    requires n <= |cs|
    ensures |r| == |stash|
  {
    if n == 0 then stash
    else
      var r := Unstashed(stash, cs, n - 1, lo, size);
      if lo <= cs[n - 1].index < lo + size then r else Marked(r, cs[n - 1].index)
  }

  lemma {:induction false} MarkedSum(cs: seq<Contribution>, n: nat, i: int, g: int)
    requires n <= |cs| && g != -1
    ensures SumTo(Marked(cs, i), n, g) == if g == i then 0.0 else SumTo(cs, n, g)
  {
    if n > 0 { MarkedSum(cs, n - 1, i, g); }
  }

  lemma {:induction false} UnstashedSum(stash: seq<Contribution>, cs: seq<Contribution>, n: nat, lo: int, size: nat,
                                        g: int)
    requires n <= |cs| && g != -1
    ensures SumAt(Unstashed(stash, cs, n, lo, size), g)
      == if Names(cs, n, g) && !(lo <= g < lo + size) then 0.0 else SumAt(stash, g)
  {
    if n > 0 {
      UnstashedSum(stash, cs, n - 1, lo, size, g);
      MarkedSum(Unstashed(stash, cs, n - 1, lo, size), |stash|, cs[n - 1].index, g);
    }
  }

  lemma {:induction false} HitsNone(cs: seq<Contribution>, n: nat, i: int)
    requires n <= |cs| && Hits(cs, n, i) == 0
    ensures forall k :: 0 <= k < n ==> cs[k].index != i
  {
    if n > 0 { HitsNone(cs, n - 1, i); }
  }

  class VectorPart {
    const vec_start: int
    const data: array<real>
    var off_proc_i: array<int>
    var off_proc_data: array<real>
    var current_num_elmts: nat
    var cancel_indx: nat

    ghost predicate Valid()
      reads this
    {
      && current_num_elmts <= off_proc_i.Length == off_proc_data.Length
      && data != off_proc_data
    }

    predicate Owns(g: int) { vec_start <= g < vec_start + data.Length }

    function Stash(): (cs: seq<Contribution>)
      requires Valid()
      reads this, off_proc_i, off_proc_data
      ensures |cs| == current_num_elmts
    {
      seq(current_num_elmts, k requires 0 <= k < current_num_elmts && Valid() reads this, off_proc_i, off_proc_data =>
        Contribution(off_proc_i[k], off_proc_data[k]))
    }

    constructor (vec_start: int, values: seq<real>)
      ensures Valid() && this.vec_start == vec_start && data[..] == values && Stash() == [] && cancel_indx == 0
      ensures fresh(data) && fresh(off_proc_i) && fresh(off_proc_data)
    {
      this.vec_start := vec_start;
      data := new real[|values|](k requires 0 <= k < |values| => values[k]);
      off_proc_i := new int[0];
      off_proc_data := new real[0];
      current_num_elmts := 0;
      cancel_indx := 0;
      new;
      assert data[..] == values;
    }

    /** Room for one more contribution: 100 at first, then 10 at a time. */
    method GrowStash()
      requires Valid()
      modifies this
      ensures Valid() && Stash() == old(Stash()) && current_num_elmts < off_proc_i.Length
        && cancel_indx == old(cancel_indx)
      ensures off_proc_i == old(off_proc_i) || fresh(off_proc_i)
      ensures off_proc_data == old(off_proc_data) || fresh(off_proc_data)
    {
      var max_off_proc_elmts := off_proc_i.Length;
      if max_off_proc_elmts == 0 {
        off_proc_i, off_proc_data := new int[100], new real[100];
      } else if current_num_elmts + 1 > max_off_proc_elmts {
        Realloc(max_off_proc_elmts + 10);
      }
    }

    method Realloc(size: nat)
      requires Valid() && current_num_elmts < size
      modifies this
      ensures Valid() && Stash() == old(Stash()) && off_proc_i.Length == size && cancel_indx == old(cancel_indx)
      ensures fresh(off_proc_i) && fresh(off_proc_data)
    {
      ghost var stash := Stash();
      var i, d := new int[size], new real[size];
      for k := 0 to current_num_elmts
        invariant unchanged(this) && forall j :: 0 <= j < k ==> i[j] == off_proc_i[j] && d[j] == off_proc_data[j]
      {
        i[k], d[k] := off_proc_i[k], off_proc_data[k];
      }
      off_proc_i, off_proc_data := i, d;
      assert Stash() == stash;
    }

    /** One component of hypre_IJVectorAddToValuesPar. */
    method AddOne(i: int, v: real)
      requires Valid()
      modifies this, data, off_proc_i, off_proc_data
      ensures Valid() && cancel_indx == old(cancel_indx)
      ensures Owns(i) ==>
        Stash() == old(Stash()) && data[..] == old(data[..])[i - vec_start := old(data[i - vec_start]) + v]
      ensures !Owns(i) ==> Stash() == old(Stash()) + [Contribution(i, v)] && data[..] == old(data[..])
      ensures off_proc_i == old(off_proc_i) || fresh(off_proc_i)
      ensures off_proc_data == old(off_proc_data) || fresh(off_proc_data)
    {
      ghost var stash, values := Stash(), data[..];
      if i < vec_start || i > vec_start + data.Length - 1 {
        GrowStash();
        off_proc_i[current_num_elmts], off_proc_data[current_num_elmts] := i, v;
        current_num_elmts := current_num_elmts + 1;
        assert Stash() == stash + [Contribution(i, v)];
      } else {
        data[i - vec_start] := data[i - vec_start] + v;
        assert Stash() == stash;
      }
    }

    /** hypre_IJVectorAddToValuesPar with given indices: the values given for owned components are added to
        them, in order, the others go to the end of the stash.  A rank that owns nothing reports an error
        and forgets the values. */
    method AddTo(indices: seq<int>, values: seq<real>) returns (ok: bool)
      requires Valid() && |indices| <= |values|
      modifies this, data, off_proc_i, off_proc_data
      ensures Valid() && cancel_indx == old(cancel_indx)
      ensures ok == (indices == [] || data.Length > 0)
      ensures !ok ==> Stash() == old(Stash()) && data[..] == old(data[..])
      ensures ok ==> data[..] == Added(old(data[..]), Contributions(indices, values, |indices|), |indices|, vec_start)
      ensures ok ==>
        Stash() == old(Stash()) + Foreign(Contributions(indices, values, |indices|), |indices|, vec_start, data.Length)
      ensures off_proc_i == old(off_proc_i) || fresh(off_proc_i)
      ensures off_proc_data == old(off_proc_data) || fresh(off_proc_data)
    {
      ghost var cs, d, stash := Contributions(indices, values, |indices|), data[..], Stash();
      assert stash + [] == stash;
      if indices == [] { return true; }
      if data.Length == 0 { return false; }
      ok := true;
      for j := 0 to |indices|
        invariant Valid() && cancel_indx == old(cancel_indx)
        invariant data[..] == Added(d, cs, j, vec_start) && Stash() == stash + Foreign(cs, j, vec_start, data.Length)
        invariant off_proc_i == old(off_proc_i) || fresh(off_proc_i)
        invariant off_proc_data == old(off_proc_data) || fresh(off_proc_data)
      {
        AddNext(indices[j], values[j], cs, j, d, stash);
      }
    }

    method AddNext(i: int, v: real, ghost cs: seq<Contribution>, ghost j: nat, ghost d: seq<real>,
                   ghost stash: seq<Contribution>)
      requires Valid() && j < |cs| && cs[j] == Contribution(i, v)
      requires data[..] == Added(d, cs, j, vec_start) && Stash() == stash + Foreign(cs, j, vec_start, data.Length)
      modifies this, data, off_proc_i, off_proc_data
      ensures Valid() && cancel_indx == old(cancel_indx)
      ensures data[..] == Added(d, cs, j + 1, vec_start)
        && Stash() == stash + Foreign(cs, j + 1, vec_start, data.Length)
      ensures off_proc_i == old(off_proc_i) || fresh(off_proc_i)
      ensures off_proc_data == old(off_proc_data) || fresh(off_proc_data)
    {
      ghost var before := Foreign(cs, j, vec_start, data.Length);
      AddOne(i, v);
      assert before + [] == before;
      assert (stash + before) + [Contribution(i, v)] == stash + (before + [Contribution(i, v)]);
    }

    /** Marking every stashed contribution to component i as cancelled. */
    method Cancel(i: int)
      requires Valid()
      modifies this, off_proc_i
      ensures Valid() && current_num_elmts == old(current_num_elmts) && off_proc_i == old(off_proc_i)
        && off_proc_data == old(off_proc_data)
      ensures Stash() == Marked(old(Stash()), i)
      ensures cancel_indx == old(cancel_indx) + Hits(old(Stash()), old(current_num_elmts), i)
    {
      ghost var stash := Stash();
      for ii := 0 to current_num_elmts
        invariant Valid() && current_num_elmts == |stash| && off_proc_i == old(off_proc_i)
          && off_proc_data == old(off_proc_data)
        invariant cancel_indx == old(cancel_indx) + Hits(stash, ii, i)
        invariant forall k :: 0 <= k < ii ==> off_proc_i[k] == if stash[k].index == i then -1 else stash[k].index
        invariant forall k :: ii <= k < |stash| ==> off_proc_i[k] == stash[k].index
      {
        if i == off_proc_i[ii] {
          off_proc_i[ii] := -1;
          cancel_indx := cancel_indx + 1;
        }
      }
    }

    /** hypre_IJVectorSetValuesPar with given indices: the values given for owned components are set, in order;
        what is stashed for the others is cancelled, and counted.  A rank that owns nothing reports an error
        and does nothing. */
    method SetTo(indices: seq<int>, values: seq<real>) returns (ok: bool)
      requires Valid() && |indices| <= |values|
      modifies this, data, off_proc_i
      ensures Valid() && off_proc_i == old(off_proc_i) && off_proc_data == old(off_proc_data)
      ensures cancel_indx >= old(cancel_indx) && (cancel_indx == old(cancel_indx) ==> Stash() == old(Stash()))
      ensures ok == (indices == [] || data.Length > 0)
      ensures !ok ==> Stash() == old(Stash()) && data[..] == old(data[..])
      ensures ok ==>
        data[..] == Assigned(old(data[..]), Contributions(indices, values, |indices|), |indices|, vec_start)
      ensures ok ==>
        Stash() == Unstashed(old(Stash()), Contributions(indices, values, |indices|), |indices|, vec_start, data.Length)
    {
      ghost var cs, d, stash := Contributions(indices, values, |indices|), data[..], Stash();
      if indices == [] { return true; }
      if data.Length == 0 { return false; }
      ok := true;
      for j := 0 to |indices|
        invariant Valid() && off_proc_i == old(off_proc_i) && off_proc_data == old(off_proc_data)
        invariant cancel_indx >= old(cancel_indx) && (cancel_indx == old(cancel_indx) ==> Stash() == stash)
        invariant data[..] == Assigned(d, cs, j, vec_start)
        invariant Stash() == Unstashed(stash, cs, j, vec_start, data.Length)
      {
        SetOne(indices[j], values[j]);
      }
    }

    /** One component. */
    method SetOne(i: int, v: real)
      requires Valid()
      modifies this, data, off_proc_i
      ensures Valid() && off_proc_i == old(off_proc_i) && off_proc_data == old(off_proc_data)
      ensures cancel_indx >= old(cancel_indx) && (cancel_indx == old(cancel_indx) ==> Stash() == old(Stash()))
      ensures Owns(i) ==> Stash() == old(Stash()) && data[..] == old(data[..])[i - vec_start := v]
      ensures !Owns(i) ==> Stash() == Marked(old(Stash()), i) && data[..] == old(data[..])
    {
      ghost var stash := Stash();
      if i < vec_start || i > vec_start + data.Length - 1 {
        ghost var before := cancel_indx;
        Cancel(i);
        if cancel_indx == before { HitsNone(stash, |stash|, i); }
      } else {
        data[i - vec_start] := v;
        assert Stash() == stash;
      }
    }

    /** The first part of hypre_IJVectorAssemblePar: cancelled contributions are removed, in place.  Nothing
        happens unless something was cancelled. */
    method Compact()
      requires Valid()
      modifies this, off_proc_i, off_proc_data
      ensures Valid()
        && Stash() == if old(cancel_indx) != 0 then Live(old(Stash()), old(current_num_elmts)) else old(Stash())
      ensures off_proc_i == old(off_proc_i) && off_proc_data == old(off_proc_data) && cancel_indx == old(cancel_indx)
    {
      hide Live;
      ghost var stash := Stash();
      if cancel_indx != 0 {
        NoneLive(stash);
        var current_i: nat := 0;
        for ii := 0 to current_num_elmts
          invariant Valid() && current_num_elmts == |stash| && off_proc_i == old(off_proc_i)
            && off_proc_data == old(off_proc_data)
          invariant current_i == |Live(stash, ii)| <= ii && cancel_indx == old(cancel_indx)
          invariant forall k ::
            0 <= k < current_i ==> Contribution(off_proc_i[k], off_proc_data[k]) == Live(stash, ii)[k]
          invariant forall k :: ii <= k < |stash| ==> Contribution(off_proc_i[k], off_proc_data[k]) == stash[k]
        {
          LiveLast(stash, ii + 1);
          assert Contribution(off_proc_i[ii], off_proc_data[ii]) == stash[ii];
          if off_proc_i[ii] != -1 {
            off_proc_i[current_i], off_proc_data[current_i] := off_proc_i[ii], off_proc_data[ii];
            current_i := current_i + 1;
          }
        }
        current_num_elmts := current_i;
        assert Stash() == Live(stash, |stash|);
      }
    }
  }

  /** The first n contributions of a call. */
  function Contributions(indices: seq<int>, values: seq<real>, n: nat): (cs: seq<Contribution>)
    requires n <= |indices| && n <= |values|
    ensures |cs| == n && forall k :: 0 <= k < n ==> cs[k] == Contribution(indices[k], values[k])
  {
    seq(n, k requires 0 <= k < n => Contribution(indices[k], values[k]))
  }
}
