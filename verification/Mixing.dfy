module Mixing {
  // Why streams need one worker or no two slices longer than a buffer: entries of full_list carry no slice, so
  // otherwise a worker can be handed a buffer of another slice.  The run that shows it is built slice by slice.

  import opened Basics
  import opened Protocol

  ghost predicate Reaches<V>(c: Config<V>, st: State<V>, end: State<V>) {
    exists run :: IsRun(c, st, run) && After(c, st, run) == end
  }

  lemma {:induction false} RunSnoc<V>(c: Config<V>, st: State<V>, run: seq<Step>, step: Step)
    requires IsRun(c, st, run) && WellFormed(c, After(c, st, run)) && Enabled(c, After(c, st, run), step)
    ensures IsRun(c, st, run + [step]) && After(c, st, run + [step]) == Apply(c, After(c, st, run), step)
    decreases |run|
  {
    if run == [] {
      assert [] + [step] == [step];
    } else {
      assert (run + [step])[1..] == run[1..] + [step];
      RunSnoc(c, Apply(c, st, run[0]), run[1..], step);
    }
  }

  /** A state of some run in which everything is as it should be so far. */
  ghost predicate Good<V>(c: Config<V>, s0: State<V>, st: State<V>) {
    c.bufSize >= 1 && c.workers >= 2 && c.Faithful() && Reaches(c, s0, st) && Core(c, st) && Owned(c, st)
  }

  /** One more step; a buffer that is popped must be the worker's own. */
  lemma Do<V>(c: Config<V>, s0: State<V>, st: State<V>, step: Step) returns (next: State<V>)
    requires Good(c, s0, st) && Enabled(c, st, step)
    requires step.Next? ==> st.full[0].slice == st.workers[step.w].slice && st.full[0].from == |st.workers[step.w].log|
    ensures next == Apply(c, st, step) && Good(c, s0, next)
  {
    var run :| IsRun(c, s0, run) && After(c, s0, run) == st;
    RunSnoc(c, s0, run, step);
    CoreAfter(c, st, step);
    OwnedWellFormedAfter(c, st, step);
    next := Apply(c, st, step);
  }

  /** The producer pushes k values. */
  lemma PushMany<V>(c: Config<V>, s0: State<V>, st: State<V>, k: nat) returns (end: State<V>)
    requires Good(c, s0, st) && st.prod.mode == Filling && st.prod.hand.Some?
    requires st.prod.sent + k <= c.Len(st.prod.slice) && st.prod.qidx + k <= c.bufSize
    ensures Good(c, s0, end)
    ensures end == st.(bufs := end.bufs, prod := st.prod.(sent := st.prod.sent + k, qidx := st.prod.qidx + k))
  {
    hide Good;
    end := st;
    for i := 0 to k
      invariant Good(c, s0, end)
      invariant end == st.(bufs := end.bufs, prod := st.prod.(sent := st.prod.sent + i, qidx := st.prod.qidx + i))
    {
      end := Do(c, s0, end, Push);
    }
  }

  ghost predicate Busy<V>(st: State<V>, w: nat, slice: nat, cq: nat, size: nat) {
    w < |st.workers| && st.workers[w].Running? && st.workers[w].slice == slice && st.workers[w].cq == cq
      && |st.workers[w].log| == size
  }

  ghost predicate Waiting<V>(st: State<V>, w: nat, slice: nat, size: nat) {
    w < |st.workers| && st.workers[w].Awaiting? && st.workers[w].slice == slice && st.workers[w].cq == 0
      && |st.workers[w].log| == size
  }

  /** Nothing differs but worker w. */
  ghost predicate OnlyWorker<V>(st: State<V>, end: State<V>, w: nat) {
    w < |st.workers| == |end.workers| && end == st.(workers := st.workers[w := end.workers[w]])
  }

  /** Whether a worker asks for more depends on the length of what it has read. */
  lemma AsksBelow<V>(c: Config<V>, s0: State<V>, st: State<V>, w: nat)
    requires Good(c, s0, st) && w < |st.workers| && st.workers[w].Running?
    ensures c.more(st.workers[w].slice, st.workers[w].log) <==> |st.workers[w].log| < c.Len(st.workers[w].slice)
  {
    assert Consistent(c, st, st.workers[w]);
    MoreIffShort(c, st, st.workers[w]);
  }

  /** Worker w reads k values. */
  lemma ReadMany<V>(c: Config<V>, s0: State<V>, st: State<V>, w: nat, slice: nat, size: nat, k: nat)
    returns (end: State<V>)
    requires Good(c, s0, st) && Busy(st, w, slice, 0, size) && k <= c.bufSize && size + k <= c.Len(slice)
    ensures Good(c, s0, end) && OnlyWorker(st, end, w) && Busy(end, w, slice, k, size + k)
    ensures end.workers[w].buf == st.workers[w].buf
  {
    hide Good;
    end := st;
    for i := 0 to k
      invariant Good(c, s0, end) && OnlyWorker(st, end, w) && Busy(end, w, slice, i, size + i)
      invariant end.workers[w].buf == st.workers[w].buf
    {
      AsksBelow(c, s0, end, w);
      end := Do(c, s0, end, Read(w));
    }
  }

  // ---- slices, one after the other

  /** The producer is between slices, before slice s, and worker w is idle. */
  ghost predicate Before<V>(c: Config<V>, st: State<V>, s: nat, w: nat) {
    && st.prod == Producer(Between, s, 0, 0, None, false) && st.tasks == [] && !st.fini
    && |st.empty| >= 2 && w < |st.workers| && st.workers[w] == Idle(0)
  }

  /** Slice s begins, and its first k values are pushed. */
  lemma Begins<V>(c: Config<V>, s0: State<V>, st: State<V>, s: nat, w: nat, k: nat) returns (end: State<V>)
    requires Good(c, s0, st) && Before(c, st, s, w) && s < |c.slices| && k <= c.bufSize && k <= c.Len(s)
    ensures Good(c, s0, end)
    ensures end == st.(empty := st.empty[1..], bufs := end.bufs, prod :=
      Producer(Filling, s, k, k, Some(st.empty[0]), false))
  {
    hide Good;
    end := Do(c, s0, st, Enter);
    end := Do(c, s0, end, Begin);
    end := PushMany(c, s0, end, k);
  }

  /** A slice that fits in a buffer: worker w runs it. */
  lemma ShortSlice<V>(c: Config<V>, s0: State<V>, st: State<V>, s: nat, w: nat) returns (end: State<V>)
    requires Good(c, s0, st) && Before(c, st, s, w) && s < |c.slices| && !c.Long(s)
    ensures Good(c, s0, end) && Before(c, end, s + 1, w) && end.full == st.full && end.workers == st.workers
      && |end.empty| == |st.empty|
  {
    hide Good;
    end := Begins(c, s0, st, s, w, c.Len(s));
    end := Do(c, s0, end, End);
    end := Do(c, s0, end, Take(w));
    end := ReadMany(c, s0, end, w, s, 0, c.Len(s));
    AsksBelow(c, s0, end, w);
    end := Do(c, s0, end, Done(w));
    assert end.workers == st.workers;
  }

  /** The producer is within the long slice s, about to pick up a buffer; worker w has read all that was handed on. */
  ghost predicate Within<V>(c: Config<V>, st: State<V>, s: nat, m: nat, w: nat) {
    && st.prod == Producer(Blocked, s, m, 0, None, true) && st.tasks == [] && !st.fini
    && |st.empty| >= 2 && Waiting(st, w, s, m)
  }

  /** A long slice up to its first buffer. */
  lemma LongStart<V>(c: Config<V>, s0: State<V>, st: State<V>, s: nat, w: nat) returns (end: State<V>)
    requires Good(c, s0, st) && Before(c, st, s, w) && s < |c.slices| && c.Long(s)
    ensures Good(c, s0, end) && Within(c, end, s, c.bufSize, w) && end.full == st.full && |end.empty| == |st.empty|
    ensures |end.workers| == |st.workers| && end.workers == st.workers[w := end.workers[w]]
  {
    hide Good;
    end := Begins(c, s0, st, s, w, c.bufSize);
    end := Do(c, s0, end, Interim);
    end := Do(c, s0, end, Take(w));
    end := ReadMany(c, s0, end, w, s, 0, c.bufSize);
    AsksBelow(c, s0, end, w);
    end := Do(c, s0, end, Switch(w));
    assert end.workers == st.workers[w := end.workers[w]];
  }

  /** One more buffer of a long slice that is not its last. */
  lemma LongMore<V>(c: Config<V>, s0: State<V>, st: State<V>, s: nat, m: nat, w: nat) returns (end: State<V>)
    requires Good(c, s0, st) && Within(c, st, s, m, w) && st.full == [] && m + c.bufSize < c.Len(s)
    ensures Good(c, s0, end) && Within(c, end, s, m + c.bufSize, w) && end.full == [] && |end.empty| == |st.empty|
    ensures |end.workers| == |st.workers| && end.workers == st.workers[w := end.workers[w]]
  {
    hide Good;
    end := Do(c, s0, st, Refill);
    end := PushMany(c, s0, end, c.bufSize);
    end := Do(c, s0, end, Interim);
    end := Do(c, s0, end, Next(w));
    end := ReadMany(c, s0, end, w, s, m, c.bufSize);
    AsksBelow(c, s0, end, w);
    end := Do(c, s0, end, Switch(w));
    assert end.workers == st.workers[w := end.workers[w]];
  }

  /** The slice has ended, and its last buffer is in full_list, not read yet. */
  ghost predicate LastLeft<V>(c: Config<V>, st: State<V>, s: nat, m: nat, w: nat) {
    && st.prod == Producer(Between, s + 1, 0, 0, None, false) && st.tasks == [] && !st.fini
    && Waiting(st, w, s, m) && m < c.Len(s) <= m + c.bufSize && |st.full| == 1 && st.full[0].slice == s
      && st.full[0].from == m
  }

  /** The last buffer of a long slice. */
  lemma LongLast<V>(c: Config<V>, s0: State<V>, st: State<V>, s: nat, m: nat, w: nat) returns (end: State<V>)
    requires Good(c, s0, st) && Within(c, st, s, m, w) && st.full == [] && m < c.Len(s) <= m + c.bufSize
    ensures Good(c, s0, end) && LastLeft(c, end, s, m, w) && end.workers == st.workers && |end.empty| + 1 == |st.empty|
  {
    hide Good;
    end := Do(c, s0, st, Refill);
    end := PushMany(c, s0, end, c.Len(s) - m);
    end := Do(c, s0, end, End);
  }

  /** A long slice up to its last buffer. */
  lemma LongButLast<V>(c: Config<V>, s0: State<V>, st: State<V>, s: nat, w: nat) returns (end: State<V>, m: nat)
    requires Good(c, s0, st) && Before(c, st, s, w) && s < |c.slices| && c.Long(s) && st.full == []
    ensures Good(c, s0, end) && LastLeft(c, end, s, m, w) && m >= c.bufSize && |end.empty| + 1 == |st.empty|
    ensures |end.workers| == |st.workers| && end.workers == st.workers[w := end.workers[w]]
  {
    assert c.bufSize >= 1;
    hide Good;
    end := LongStart(c, s0, st, s, w);
    m := c.bufSize;
    while m + c.bufSize < c.Len(s)
      invariant Good(c, s0, end) && Within(c, end, s, m, w) && end.full == [] && |end.empty| == |st.empty|
        && c.bufSize <= m < c.Len(s)
      invariant |end.workers| == |st.workers| && end.workers == st.workers[w := end.workers[w]]
    {
      end := LongMore(c, s0, end, s, m, w);
      m := m + c.bufSize;
    }
    end := LongLast(c, s0, end, s, m, w);
  }

  /** The rest of a long slice. */
  lemma LongSlice<V>(c: Config<V>, s0: State<V>, st: State<V>, s: nat, w: nat) returns (end: State<V>)
    requires Good(c, s0, st) && Before(c, st, s, w) && s < |c.slices| && c.Long(s) && st.full == []
    ensures Good(c, s0, end) && Before(c, end, s + 1, w) && end.full == [] && end.workers == st.workers
      && |end.empty| == |st.empty|
  {
    hide Good;
    var m;
    end, m := LongButLast(c, s0, st, s, w);
    end := Do(c, s0, end, Next(w));
    end := ReadMany(c, s0, end, w, s, m, c.Len(s) - m);
    AsksBelow(c, s0, end, w);
    end := Do(c, s0, end, Done(w));
    assert end.workers == st.workers;
  }

  /** All slices before slice n, run by worker 0. */
  lemma {:induction false} SlicesBefore<V>(c: Config<V>, st: State<V>, n: nat) returns (end: State<V>)
    requires c.bufSize >= 1 && c.workers >= 2 && c.Faithful() && Init(c, st) && n <= |c.slices|
    ensures Good(c, st, end) && Before(c, end, n, 0) && end.full == [] && |end.empty| == c.NumQueues()
    ensures |end.workers| == c.workers && end.workers[1] == Idle(0)
  {
    if n == 0 {
      assert IsRun(c, st, []) && After(c, st, []) == st;
      InitOwned(c, st);
      end := st;
    } else {
      end := SlicesBefore(c, st, n - 1);
      if c.Long(n - 1) { end := LongSlice(c, st, end, n - 1, 0); } else { end := ShortSlice(c, st, end, n - 1, 0); }
    }
  }

  /** Of two long slices, the last long one before the later. */
  lemma {:induction false} LastLong<V>(c: Config<V>, s: nat, t: nat) returns (i: nat)
    requires s < t && c.Long(s)
    ensures s <= i < t && c.Long(i) && forall u: nat :: i < u < t ==> !c.Long(u)
    decreases t
  {
    if c.Long(t - 1) { i := t - 1; } else { i := LastLong(c, s, t - 1); }
  }

  /** Worker 1 runs the short slices between two long ones, while worker 0 waits. */
  lemma {:induction false} ShortBetween<V>(c: Config<V>, s0: State<V>, st: State<V>, s: nat, t: nat)
    returns (end: State<V>)
    requires Good(c, s0, st) && Before(c, st, s, 1) && s <= t <= |c.slices|
      && forall u: nat :: s <= u < t ==> !c.Long(u)
    ensures Good(c, s0, end) && Before(c, end, t, 1) && end.full == st.full && end.workers == st.workers
    decreases t - s
  {
    if s == t {
      end := st;
    } else {
      end := ShortSlice(c, s0, st, s, 1);
      end := ShortBetween(c, s0, end, s + 1, t);
    }
  }

  /** Worker w, on slice t, has read that slice's first buffer, and after it the value at position m of slice i. */
  ghost predicate MixedUp<V>(c: Config<V>, st: State<V>, w: nat, t: nat, i: nat, m: nat) {
    && w < |st.workers| && st.workers[w].Running? && st.workers[w].slice == t < |c.slices| && i < t
    && c.bufSize <= m < |c.slices[i]| && c.bufSize < |c.slices[t]|
    && st.workers[w].log == c.slices[t][..c.bufSize] + [c.slices[i][m]]
  }

  /** Worker w waits for its next buffer, and full_list has another slice's first. */
  ghost predicate OthersNext<V>(c: Config<V>, st: State<V>, w: nat, t: nat, i: nat) {
    Waiting(st, w, t, c.bufSize) && c.Long(t) && st.full != [] && st.full[0].slice == i < t
  }

  lemma ReachesOthersNext<V>(c: Config<V>, st: State<V>, s: nat, t: nat) returns (end: State<V>, i: nat)
    requires c.bufSize >= 1 && c.workers >= 2 && c.Faithful() && Init(c, st) && s < t && c.Long(s) && c.Long(t)
    ensures Good(c, st, end) && OthersNext(c, end, 1, t, i)
  {
    i := LastLong(c, s, t);
    end := SlicesBefore(c, st, i);
    var m;
    end, m := LongButLast(c, st, end, i, 0);
    end := ShortBetween(c, st, end, i + 1, t);
    end := LongStart(c, st, end, t, 1);
  }

  /** What happens then: the worker reads a value of the other slice. */
  lemma ReadsAnothers<V>(c: Config<V>, s0: State<V>, st: State<V>, w: nat, t: nat, i: nat)
    returns (end: State<V>, m: nat)
    requires Good(c, s0, st) && OthersNext(c, st, w, t, i)
    ensures Reaches(c, s0, end) && MixedUp(c, end, w, t, i, m)
  {
    var k := st.workers[w];
    assert Consistent(c, st, k);
    MoreIffShort(c, st, k);
    assert k.log == c.slices[t][..c.bufSize];
    m := st.full[0].from;
    assert Loaded(c, st.bufs[st.full[0].buf], i, m) && st.bufs[st.full[0].buf][0] == c.slices[i][m + 0];
    var run :| IsRun(c, s0, run) && After(c, s0, run) == st;
    RunSnoc(c, s0, run, Next(w));
    var next := Apply(c, st, Next(w));
    OwnedWellFormedAfter(c, st, Next(w));
    RunSnoc(c, s0, run + [Next(w)], Read(w));
    end := Apply(c, next, Read(w));
  }

  /** With two workers and two slices longer than a buffer, some run mixes the streams up. */
  lemma StreamsCanMix<V>(c: Config<V>, st: State<V>, s: nat, t: nat)
    requires c.bufSize >= 1 && c.workers >= 2 && c.Faithful() && Init(c, st) && s < t && c.Long(s) && c.Long(t)
    ensures exists end, i: nat, m: nat :: Reaches(c, st, end) && MixedUp(c, end, 1, t, i, m)
  {
    var at, i := ReachesOthersNext(c, st, s, t);
    var end, m := ReadsAnothers(c, st, at, 1, t, i);
  }

  /** What a waiting worker finds at the front of full_list continues its slice. */
  ghost predicate OwnNext<V>(st: State<V>) {
    forall w :: 0 <= w < |st.workers| && st.workers[w].Awaiting? && st.full != [] ==>
      st.full[0].slice == st.workers[w].slice && st.full[0].from == |st.workers[w].log|
  }

  /** Exactly when streams are kept apart: workers are handed their own buffers in every run if and only if there
      is one worker, or at most one slice is longer than a buffer. */
  lemma StreamsExact<V>(c: Config<V>, st: State<V>)
    requires c.bufSize >= 1 && c.workers >= 1 && c.Faithful() && Init(c, st)
    ensures (forall end :: Reaches(c, st, end) ==> OwnNext(end)) <==> c.workers == 1 || c.OneLong()
  {
    if c.workers == 1 || c.OneLong() {
      forall end | Reaches(c, st, end) ensures OwnNext(end) { KeptApart(c, st, end); }
    } else {
      var s: nat, t: nat :| c.Long(s) && c.Long(t) && s != t;
      var end, i := ReachesOthersNext(c, st, if s < t then s else t, if s < t then t else s);
      assert !OwnNext(end) by { assert end.workers[1].Awaiting?; }
    }
  }

  lemma KeptApart<V>(c: Config<V>, st: State<V>, end: State<V>)
    requires c.Supported() && Init(c, st) && Reaches(c, st, end)
    ensures OwnNext(end)
  {
    var run :| IsRun(c, st, run) && After(c, st, run) == end;
    InitInv(c, st);
    InvAlong(c, st, run);
    forall w | 0 <= w < |end.workers| && end.workers[w].Awaiting? && end.full != []
      ensures end.full[0].slice == end.workers[w].slice && end.full[0].from == |end.workers[w].log|
    {
      NextIsItsOwn(c, end, w);
    }
  }
}
