/** One buffer for several receivers: each has its stretch of cells, filled from its base up to a moving
    `next` cell; in the end the stretches, one after the other, fill the buffer. */
module Parts {
  import opened Basics
  import opened Blocks

  ghost predicate IsSlice<T>(buf: seq<T>, lo: int, hi: int, part: seq<T>) {
    0 <= lo <= hi <= |buf| && buf[lo..hi] == part
  }

  /** The first n parts lie in the buffer one after the other, from start to next start. */
  ghost predicate Slices<T>(buf: seq<T>, starts: seq<int>, parts: seq<seq<T>>, n: nat)
    requires n <= |parts| && n < |starts|
  {
    if n == 0 then starts[0] == 0
    else Slices(buf, starts, parts, n - 1) && IsSlice(buf, starts[n - 1], starts[n], parts[n - 1])
  }

  lemma {:induction false} SliceAt<T>(buf: seq<T>, starts: seq<int>, parts: seq<seq<T>>, n: nat, k: nat)
    requires k < n <= |parts| && n < |starts| && Slices(buf, starts, parts, n)
    ensures IsSlice(buf, starts[k], starts[k + 1], parts[k])
  {
    if k < n - 1 { SliceAt(buf, starts, parts, n - 1, k); }
  }

  /** The first n parts, as far as they have been filled. */
  ghost predicate Filling<T>(buf: seq<T>, nexts: seq<int>, bases: seq<nat>, parts: seq<seq<T>>, n: nat)
    requires n <= |parts| && n <= |nexts| && n <= |bases|
  {
    n == 0 || (Filling(buf, nexts, bases, parts, n - 1) && IsSlice(buf, bases[n - 1], nexts[n - 1], parts[n - 1]))
  }

  lemma {:induction false} FillingAt<T>(buf: seq<T>, nexts: seq<int>, bases: seq<nat>, parts: seq<seq<T>>, n: nat,
                                        k: nat)
    requires k < n <= |parts| && n <= |nexts| && n <= |bases| && Filling(buf, nexts, bases, parts, n)
    ensures IsSlice(buf, bases[k], nexts[k], parts[k]) && nexts[k] == bases[k] + |parts[k]|
  {
    if k < n - 1 { FillingAt(buf, nexts, bases, parts, n - 1, k); }
  }

  lemma {:induction false} FillingStart<T>(buf: seq<T>, nexts: seq<int>, bases: seq<nat>, limits: seq<nat>,
                                           parts: seq<seq<T>>, n: nat)
    requires n <= |parts| && n <= |nexts| && n <= |bases| && Chained(bases, limits, 0, |buf|)
    requires forall k :: 0 <= k < n ==> nexts[k] == bases[k] && parts[k] == []
    ensures Filling(buf, nexts, bases, parts, n)
  {
    if n > 0 {
      FillingStart(buf, nexts, bases, limits, parts, n - 1);
      BlockWithin(bases, limits, 0, |buf|, n - 1);
    }
  }

  /** Every part fits into its stretch. */
  ghost predicate Fit<T>(parts: seq<seq<T>>, bases: seq<nat>, limits: seq<nat>) {
    |parts| == |bases| == |limits| && forall k :: 0 <= k < |parts| ==> bases[k] + |parts[k]| <= limits[k]
  }

  /** Part k grows by xs ... */
  lemma OwnSlice<T>(buf: seq<T>, base: nat, next: int, part: seq<T>, xs: seq<T>)
    requires IsSlice(buf, base, next, part) && next + |xs| <= |buf|
    ensures IsSlice(Overwrite(buf, next, xs), base, next + |xs|, part + xs)
  {
    var after := Overwrite(buf, next, xs);
    OverwriteSlice(buf, next, xs, base, next);
    assert after[base..next + |xs|] == after[base..next] + after[next..next + |xs|];
  }

  /** ... and no other part is touched. */
  lemma OtherSlice<T>(buf: seq<T>, base: nat, next: int, part: seq<T>, at: nat, xs: seq<T>)
    requires IsSlice(buf, base, next, part) && at + |xs| <= |buf| && (next <= at || at + |xs| <= base)
    ensures IsSlice(Overwrite(buf, at, xs), base, next, part)
  {
    OverwriteSlice(buf, at, xs, base, next);
  }

  lemma {:induction false} FillingNext<T>(buf: seq<T>, nexts: seq<int>, bases: seq<nat>, limits: seq<nat>,
                                          parts: seq<seq<T>>, k: nat, at: nat, xs: seq<T>, n: nat)
    requires n <= |parts| <= |nexts| && k < |parts| && Fit(parts, bases, limits) && Chained(bases, limits, 0, |buf|)
    requires Filling(buf, nexts, bases, parts, n) && bases[k] <= at == nexts[k] && at + |xs| <= limits[k] <= |buf|
    ensures Filling(Overwrite(buf, at, xs), nexts[k := at + |xs|], bases, parts[k := parts[k] + xs], n)
  {
    if n > 0 {
      hide Overwrite, Chained, IsSlice;
      FillingNext(buf, nexts, bases, limits, parts, k, at, xs, n - 1);
      if k == n - 1 {
        OwnSlice(buf, bases[k], at, parts[k], xs);
      } else {
        FillingOther(buf, nexts, bases, limits, parts, k, at, xs, n - 1);
      }
    }
  }

  lemma FillingOther<T>(buf: seq<T>, nexts: seq<int>, bases: seq<nat>, limits: seq<nat>, parts: seq<seq<T>>, k: nat,
                        at: nat, xs: seq<T>, j: nat)
    requires |parts| <= |nexts| && k < |parts| && Fit(parts, bases, limits) && Chained(bases, limits, 0, |buf|)
    requires bases[k] <= at && at + |xs| <= limits[k] <= |buf|
    requires j < |parts| && j != k && IsSlice(buf, bases[j], nexts[j], parts[j])
    ensures IsSlice(Overwrite(buf, at, xs), bases[j], nexts[j], parts[j])
  {
    hide Overwrite, Chained;
    if j < k { BlocksInOrder(bases, limits, 0, |buf|, j, k); } else { BlocksInOrder(bases, limits, 0, |buf|, k, j); }
    OtherSlice(buf, bases[j], nexts[j], parts[j], at, xs);
  }

  /** One more stretch of cells for part k, in the terms of a caller. */
  lemma FillPart<T>(buf: seq<T>, nexts: seq<int>, bases: seq<nat>, limits: seq<nat>, parts: seq<seq<T>>, k: nat,
                    xs: seq<T>, at: int, parts': seq<seq<T>>)
    requires |parts| <= |nexts| && k < |parts| && Fit(parts, bases, limits) && Chained(bases, limits, 0, |buf|)
    requires Filling(buf, nexts, bases, parts, |parts|) && parts' == parts[k := parts[k] + xs]
      && Fit(parts', bases, limits)
    requires at == nexts[k]
    ensures bases[k] <= at && at + |xs| <= limits[k] <= |buf|
    ensures Filling(Overwrite(buf, at, xs), nexts[k := at + |xs|], bases, parts', |parts'|)
  {
    FillingAt(buf, nexts, bases, parts, |parts|, k);
    assert |parts'[k]| == |parts[k]| + |xs|;
    BlockWithin(bases, limits, 0, |buf|, k);
    FillingNext(buf, nexts, bases, limits, parts, k, at, xs, |parts|);
  }

  /** Every part fills its stretch exactly. */
  ghost predicate Full<T>(parts: seq<seq<T>>, bases: seq<nat>, limits: seq<nat>) {
    |parts| == |bases| == |limits| && forall k :: 0 <= k < |parts| ==> bases[k] + |parts[k]| == limits[k]
  }

  lemma EndOfLast(bases: seq<nat>, limits: seq<nat>, n: nat, size: nat)
    requires Chained(bases, limits, 0, size) && n == |bases|
    ensures n == |limits| && size == if n == 0 then 0 else limits[n - 1]
  {
    if bases != [] { LastBlock(bases, limits, 0, size); }
  }

  /** When every part is complete, the ends moved up by one are the starts. */
  lemma {:induction false} FullSlices<T>(buf: seq<T>, ends: seq<int>, starts: seq<int>, bases: seq<nat>,
                                         limits: seq<nat>, parts: seq<seq<T>>, n: nat)
    requires n <= |parts| <= |ends| && Full(parts, bases, limits) && Chained(bases, limits, 0, |buf|)
    requires Filling(buf, ends, bases, parts, |parts|)
    requires |starts| == |parts| + 1 && starts[0] == 0 && forall k :: 1 <= k < |starts| ==> starts[k] == ends[k - 1]
    ensures Slices(buf, starts, parts, n) && starts[n] == if n == 0 then 0 else limits[n - 1]
    ensures n == |parts| ==> starts[|parts|] == |buf|
  {
    EndOfLast(bases, limits, |parts|, |buf|);
    if n > 0 {
      FullSlices(buf, ends, starts, bases, limits, parts, n - 1);
      FillingAt(buf, ends, bases, parts, |parts|, n - 1);
      if n > 1 { BlocksInOrder(bases, limits, 0, |buf|, n - 2, n - 1); }
    }
  }
}
