/** The in-place quicksorts of hypre_qsort.c.  hypre_qsort0, hypre_qsort2i and hypre_qsort3i are the same code
    on zero, one and two arrays whose cells travel with the keys; here a key and what travels with it are one cell. */
module Sorting {

  datatype Keyed<T> = Keyed(key: int, val: T)

  ghost predicate SortedFrom<T>(s: seq<Keyed<T>>, lo: nat, hi: nat)
    requires hi <= |s|
  {
    forall i, j :: lo <= i < j < hi ==> s[i].key <= s[j].key
  }

  /** How often x occurs among the cells from lo to hi - 1. */
  ghost function Count<T>(s: seq<Keyed<T>>, lo: nat, hi: nat, x: Keyed<T>): nat
    requires hi <= |s|
    decreases hi
  {
    if hi <= lo then 0 else Count(s, lo, hi - 1, x) + (if s[hi - 1] == x then 1 else 0)
  }

  /** t is s with the cells from lo to hi - 1 rearranged. */
  ghost predicate Rearranged<T(!new)>(s: seq<Keyed<T>>, t: seq<Keyed<T>>, lo: nat, hi: nat) {
    && lo <= hi <= |s| == |t|
    && (forall i :: 0 <= i < lo || hi <= i < |s| ==> s[i] == t[i])
    && (forall x :: Count(s, lo, hi, x) == Count(t, lo, hi, x))
  }

  lemma RearrangedTwice<T(!new)>(s: seq<Keyed<T>>, t: seq<Keyed<T>>, u: seq<Keyed<T>>, lo: nat, hi: nat)
    requires Rearranged(s, t, lo, hi) && Rearranged(t, u, lo, hi)
    ensures Rearranged(s, u, lo, hi)
  {}

  lemma {:induction false} CountSplit<T>(s: seq<Keyed<T>>, lo: nat, mid: nat, hi: nat, x: Keyed<T>)
    requires lo <= mid <= hi <= |s|
    ensures Count(s, lo, hi, x) == Count(s, lo, mid, x) + Count(s, mid, hi, x)
  {
    if mid < hi { CountSplit(s, lo, mid, hi - 1, x); }
  }

  lemma {:induction false} CountSame<T>(s: seq<Keyed<T>>, t: seq<Keyed<T>>, lo: nat, hi: nat, x: Keyed<T>)
    requires hi <= |s| && hi <= |t| && forall i :: lo <= i < hi ==> s[i] == t[i]
    ensures Count(s, lo, hi, x) == Count(t, lo, hi, x)
  {
    if lo < hi { CountSame(s, t, lo, hi - 1, x); }
  }

  lemma {:induction false} CountHas<T>(s: seq<Keyed<T>>, lo: nat, hi: nat, x: Keyed<T>)
    requires hi <= |s|
    ensures Count(s, lo, hi, x) > 0 <==> exists i :: lo <= i < hi && s[i] == x
  {
    if lo < hi { CountHas(s, lo, hi - 1, x); }
  }

  lemma {:induction false} CountUpdate<T>(s: seq<Keyed<T>>, lo: nat, hi: nat, i: nat, y: Keyed<T>, x: Keyed<T>)
    requires lo <= i < hi <= |s|
    ensures Count(s[i := y], lo, hi, x) + (if s[i] == x then 1 else 0)
      == Count(s, lo, hi, x) + (if y == x then 1 else 0)
  {
    if i < hi - 1 { CountUpdate(s, lo, hi - 1, i, y, x); } else { CountSame(s, s[i := y], lo, i, x); }
  }

  /** A rearranged sequence has the same elements. */
  lemma RearrangedMultiset<T(!new)>(s: seq<Keyed<T>>, t: seq<Keyed<T>>)
    requires Rearranged(s, t, 0, |s|)
    ensures multiset(s) == multiset(t)
  {
    forall x ensures multiset(s)[x] == multiset(t)[x] {
      CountIs(s, |s|, x);
      CountIs(t, |t|, x);
      assert s[..|s|] == s && t[..|t|] == t;
    }
  }

  lemma {:induction false} CountIs<T>(s: seq<Keyed<T>>, hi: nat, x: Keyed<T>)
    requires hi <= |s|
    ensures Count(s, 0, hi, x) == multiset(s[..hi])[x]
  {
    if hi > 0 {
      CountIs(s, hi - 1, x);
      assert s[..hi] == s[..hi - 1] + [s[hi - 1]];
    }
  }

  /** Rearranging part of a stretch rearranges the stretch. */
  lemma RearrangedWithin<T(!new)>(s: seq<Keyed<T>>, t: seq<Keyed<T>>, lo: nat, hi: nat, lo': nat, hi': nat)
    requires lo <= lo' <= hi' <= hi <= |s| && Rearranged(s, t, lo', hi')
    ensures Rearranged(s, t, lo, hi)
  {
    forall x ensures Count(s, lo, hi, x) == Count(t, lo, hi, x) {
      CountSplit(s, lo, lo', hi, x);
      CountSplit(s, lo', hi', hi, x);
      CountSplit(t, lo, lo', hi, x);
      CountSplit(t, lo', hi', hi, x);
      CountSame(s, t, lo, lo', x);
      CountSame(s, t, hi', hi, x);
    }
  }

  lemma SwapRearranges<T(!new)>(s: seq<Keyed<T>>, i: nat, j: nat, lo: nat, hi: nat)
    requires lo <= i <= j < hi <= |s|
    ensures Rearranged(s, s[i := s[j]][j := s[i]], lo, hi)
  {
    forall x ensures Count(s[i := s[j]][j := s[i]], lo, hi, x) == Count(s, lo, hi, x) {
      CountUpdate(s, lo, hi, i, s[j], x);
      CountUpdate(s[i := s[j]], lo, hi, j, s[i], x);
    }
  }

  method Swap<T(!new)>(v: array<Keyed<T>>, i: nat, j: nat, ghost lo: nat, ghost hi: nat)
    requires lo <= i <= j < hi <= v.Length
    modifies v
    ensures v[..] == old(v[..])[i := old(v[j])][j := old(v[i])]
    ensures Rearranged(old(v[..]), v[..], lo, hi)
  {
    ghost var s := v[..];
    SwapRearranges(s, i, j, lo, hi);
    v[i], v[j] := v[j], v[i];
    assert v[..] == s[i := s[j]][j := s[i]];
  }

  /** Around position p, keys on the left are smaller and keys on the right are not. */
  ghost predicate Parted<T>(s: seq<Keyed<T>>, lo: nat, p: nat, hi: nat)
    requires p < hi <= |s|
  {
    && lo <= p
    && (forall i :: lo <= i < p ==> s[i].key < s[p].key)
    && (forall i :: p < i < hi ==> s[p].key <= s[i].key)
  }

  /** During partitioning: the pivot is at lo, smaller keys up to position last, the others up to i - 1. */
  ghost predicate Parting<T>(s: seq<Keyed<T>>, lo: nat, last: nat, i: nat)
    requires i <= |s|
  {
    && lo <= last < i
    && (forall k :: lo < k <= last ==> s[k].key < s[lo].key)
    && (forall k :: last < k < i ==> s[lo].key <= s[k].key)
  }

  lemma PartingNext<T>(s: seq<Keyed<T>>, lo: nat, last: nat, i: nat)
    requires i < |s| && Parting(s, lo, last, i)
    ensures if s[i].key < s[lo].key
      then Parting(s[last + 1 := s[i]][i := s[last + 1]], lo, last + 1, i + 1)
      else Parting(s, lo, last, i + 1)
  {}

  lemma PartingDone<T>(s: seq<Keyed<T>>, lo: nat, last: nat, hi: nat)
    requires hi <= |s| && Parting(s, lo, last, hi)
    ensures Parted(s[lo := s[last]][last := s[lo]], lo, last, hi)
  {}

  method Partition<T(!new)>(v: array<Keyed<T>>, left: nat, right: nat) returns (last: nat)
    requires left < right < v.Length
    modifies v
    ensures left <= last <= right
    ensures Rearranged(old(v[..]), v[..], left, right + 1) && Parted(v[..], left, last, right + 1)
  {
    ghost var s := v[..];
    Swap(v, left, (left + right) / 2, left, right + 1);
    last := left;
    for i := left + 1 to right + 1
      invariant Rearranged(s, v[..], left, right + 1) && Parting(v[..], left, last, i)
    {
      last := PartitionOne(v, left, last, i, right, s);
    }
    ghost var t := v[..];
    PartingDone(t, left, last, right + 1);
    Swap(v, left, last, left, right + 1);
    RearrangedTwice(s, t, v[..], left, right + 1);
  }

  method PartitionOne<T(!new)>(v: array<Keyed<T>>, left: nat, last0: nat, i: nat, right: nat, ghost s: seq<Keyed<T>>)
    returns (last: nat)
    requires i <= right < v.Length && Rearranged(s, v[..], left, right + 1) && Parting(v[..], left, last0, i)
    modifies v
    ensures Rearranged(s, v[..], left, right + 1) && Parting(v[..], left, last, i + 1)
  {
    ghost var t := v[..];
    PartingNext(t, left, last0, i);
    last := last0;
    if v[i].key < v[left].key {
      last := last + 1;
      Swap(v, last, i, left, right + 1);
      RearrangedTwice(s, t, v[..], left, right + 1);
    }
  }

  /** Rearranging one side of a parted stretch leaves it parted. */
  lemma StillParted<T(!new)>(s: seq<Keyed<T>>, t: seq<Keyed<T>>, lo: nat, p: nat, hi: nat, lo': nat, hi': nat)
    requires p < hi <= |s| && Parted(s, lo, p, hi) && Rearranged(s, t, lo', hi')
    requires (lo <= lo' && hi' <= p) || (p < lo' && hi' <= hi)
    ensures Parted(t, lo, p, hi)
  {
    forall i | lo <= i < hi && i != p ensures if i < p then t[i].key < t[p].key else t[p].key <= t[i].key {
      if lo' <= i < hi' {
        CountHas(t, lo', hi', t[i]);
        CountHas(s, lo', hi', t[i]);
        var k :| lo' <= k < hi' && s[k] == t[i];
      }
    }
  }

  lemma SortedOutside<T(!new)>(s: seq<Keyed<T>>, t: seq<Keyed<T>>, lo: nat, hi: nat, lo': nat, hi': nat)
    requires hi <= |s| && SortedFrom(s, lo, hi) && Rearranged(s, t, lo', hi') && (hi <= lo' || hi' <= lo)
    ensures SortedFrom(t, lo, hi)
  {}

  /** hypre_qsort0/2i/3i(v, ..., left, right): the stretch is sorted by key, and nothing else changes. */
  method Quicksort<T(!new)>(v: array<Keyed<T>>, left: int, right: int)
    requires 0 <= left <= right + 1 <= v.Length
    modifies v
    ensures Rearranged(old(v[..]), v[..], left, right + 1) && SortedFrom(v[..], left, right + 1)
    decreases right - left
  {
    if left >= right { return; }
    var last: int := Partition(v, left, right);
    ghost var s1 := v[..];
    Quicksort(v, left, last - 1);
    ghost var s2 := v[..];
    Quicksort(v, last + 1, right);
    SidesSorted(s1, s2, v[..], left, last, right + 1);
    RearrangedTwice(old(v[..]), s1, v[..], left, right + 1);
  }

  /** Sorting the left side of a parted stretch and then its right side sorts the stretch. */
  lemma SidesSorted<T(!new)>(s1: seq<Keyed<T>>, s2: seq<Keyed<T>>, s3: seq<Keyed<T>>, lo: nat, p: nat, hi: nat)
    requires p < hi <= |s1| && Parted(s1, lo, p, hi)
    requires Rearranged(s1, s2, lo, p) && SortedFrom(s2, lo, p)
    requires Rearranged(s2, s3, p + 1, hi) && SortedFrom(s3, p + 1, hi)
    ensures Rearranged(s1, s3, lo, hi) && SortedFrom(s3, lo, hi)
  {
    StillParted(s1, s2, lo, p, hi, lo, p);
    RearrangedWithin(s1, s2, lo, hi, lo, p);
    StillParted(s2, s3, lo, p, hi, p + 1, hi);
    RearrangedWithin(s2, s3, lo, hi, p + 1, hi);
    SortedOutside(s2, s3, lo, p, p + 1, hi);
    SortedAround(s3, lo, p, hi);
    RearrangedTwice(s1, s2, s3, lo, hi);
  }

  lemma SortedAround<T>(s: seq<Keyed<T>>, lo: nat, p: nat, hi: nat)
    requires p < hi <= |s| && Parted(s, lo, p, hi) && SortedFrom(s, lo, p) && SortedFrom(s, p + 1, hi)
    ensures SortedFrom(s, lo, hi)
  {}
}
