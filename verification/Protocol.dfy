module Protocol {
  // The producer/worker protocol of the runtime (runtime/handleReal.cpp): the
  // instrumented program fills buffers, worker threads run shadow slices that
  // drain them, and buffer indices travel through empty_list, task_queue and
  // full_list.  Every action below is one atomic queue operation or one access
  // to the buffer the acting thread holds; a run is any interleaving of them.

  import opened Basics

  /** `slices[s]` is what the program pushes while slice s runs.  The shadow code
      decides by itself whether it reads on: `more(s, log)` says that the shadow of
      slice s, having read `log`, asks for another value. */
  datatype Config<!V> = Config(workers: nat, bufSize: nat, slices: seq<seq<V>>, more: (nat, seq<V>) -> bool)
  {
    function NumQueues(): nat { workers * 2 + 1 }

    /** Length of slice s; 0 past the last one. */
    function Len(s: nat): nat { if s < |slices| then |slices[s]| else 0 }

    /** The shadow of each slice asks for exactly the values that were pushed for it. */
    ghost predicate Faithful() {
      forall s, i {:trigger more(s, slices[s][..i])} ::
        0 <= s < |slices| && 0 <= i <= |slices[s]| ==> (more(s, slices[s][..i]) <==> i < |slices[s]|)
    }

    /** A slice that does not fit in one buffer: its later buffers travel through full_list. */
    predicate Long(s: nat) { Len(s) > bufSize }

    ghost predicate OneLong() { forall s: nat, t: nat :: Long(s) && Long(t) ==> s == t }

    /** The two situations in which full_list needs no slice identity. */
    ghost predicate Supported() {
      && bufSize >= 1
      && workers >= 1
      && Faithful()
      && (workers == 1 || OneLong())
    }
  }

  datatype Task = Task(slice: nat, buf: nat)

  /** An entry of full_list.  Only `buf` is in the program; `slice` and `from`
      (the position in the slice of the first value in the buffer) are history
      that no action reads. */
  datatype Chunk = Chunk(buf: nat, slice: nat, from: nat)

  datatype Mode = Between | Filling | Blocked

  /** `hand` is p_queue_idx (None for -1), `qidx` the producer's buffer index,
      `sent` how many pushes of the current slice have been made. */
  datatype Producer = Producer(mode: Mode, slice: nat, sent: nat, qidx: nat, hand: Option<nat>, startSlice: bool)

  /** `cq` is the consumer's buffer index, `log` the values its slice has read. */
  datatype Worker<V> =
    | Idle(cq: nat)
    | Running(slice: nat, buf: nat, cq: nat, log: seq<V>)
    | Awaiting(slice: nat, cq: nat, log: seq<V>)
    | Exited

  datatype State<V> = State(
    empty: seq<nat>, tasks: seq<Task>, full: seq<Chunk>,
    bufs: seq<seq<V>>, prod: Producer, workers: seq<Worker<V>>,
    fini: bool, results: map<nat, seq<V>>)

  datatype Step =
    | Enter | Begin | Push | Interim | Refill | End | Finish
    | Take(w: nat) | Read(w: nat) | Switch(w: nat) | Next(w: nat) | Done(w: nat) | Exit(w: nat)

  ghost predicate Init<V>(c: Config<V>, st: State<V>) {
    && |st.empty| == c.NumQueues()
    && (forall i :: 0 <= i < |st.empty| ==> st.empty[i] == i)
    && st.tasks == [] && st.full == [] && !st.fini && st.results == map[]
    && |st.bufs| == c.NumQueues()
    && (forall b :: 0 <= b < |st.bufs| ==> |st.bufs[b]| == c.bufSize)
    && st.prod == Producer(Between, 0, 0, 0, None, false)
    && |st.workers| == c.workers
    && (forall w :: 0 <= w < |st.workers| ==> st.workers[w] == Idle(0))
  }

  predicate Enabled<V>(c: Config<V>, st: State<V>, step: Step) {
    var p := st.prod;
    match step
    case Enter => p.mode == Between && p.hand.None? && |st.empty| > 0 && !st.fini
    case Begin => p.mode == Between && p.hand.Some? && p.slice < |c.slices|
    case Push => p.mode == Filling && p.sent < c.Len(p.slice) && p.qidx < c.bufSize && p.hand.Some?
    case Interim => p.mode == Filling && p.sent < c.Len(p.slice) && p.qidx >= c.bufSize && p.hand.Some?
    case Refill => p.mode == Blocked && |st.empty| > 0
    case End => p.mode == Filling && p.sent >= c.Len(p.slice) && p.hand.Some?
    case Finish => p.mode == Between && p.slice >= |c.slices| && !st.fini
    case Take(w) => w < |st.workers| && st.workers[w].Idle? && |st.tasks| > 0
    case Read(w) => w < |st.workers| && st.workers[w].Running? && c.more(st.workers[w].slice, st.workers[w].log)
                    && st.workers[w].cq < c.bufSize
    case Switch(w) => w < |st.workers| && st.workers[w].Running? && c.more(st.workers[w].slice, st.workers[w].log)
                      && st.workers[w].cq >= c.bufSize
    case Next(w) => w < |st.workers| && st.workers[w].Awaiting? && |st.full| > 0
    case Done(w) => w < |st.workers| && st.workers[w].Running? && !c.more(st.workers[w].slice, st.workers[w].log)
    case Exit(w) => w < |st.workers| && st.workers[w].Idle? && st.fini && |st.tasks| == 0
  }

  /** Buffer contents are only defined where a step finds them; `WellFormed` is part of the invariant. */
  predicate WellFormed<V>(c: Config<V>, st: State<V>) {
    && |st.bufs| == c.NumQueues()
    && (forall b :: 0 <= b < |st.bufs| ==> |st.bufs[b]| == c.bufSize)
    && st.prod.qidx <= st.prod.sent
    && (st.prod.mode == Blocked ==> st.prod.hand.None?)
    && (st.prod.hand.Some? ==> st.prod.hand.value < |st.bufs|)
    && (forall w :: 0 <= w < |st.workers| && st.workers[w].Running? ==> st.workers[w].buf < |st.bufs|)
  }

  function Apply<V>(c: Config<V>, st: State<V>, step: Step): State<V>
    requires Enabled(c, st, step) && WellFormed(c, st)
  {
    var p := st.prod;
    match step
    // fpsanx_get_buf_addr, called on entry of every instrumented function
    case Enter => st.(empty := st.empty[1..], prod := p.(hand := Some(st.empty[0])))
    // fpsan_slice_start
    case Begin => st.(prod := p.(mode := Filling))
    // the update block: store at the index, then increment it
    case Push =>
      var b := p.hand.value;
      st.(bufs := st.bufs[b := st.bufs[b][p.qidx := c.slices[p.slice][p.sent]]],
          prod := p.(qidx := p.qidx + 1, sent := p.sent + 1))
    // index reset, then fpsanx_slice_end_interim up to its blocking pop
    case Interim =>
      if !p.startSlice then
        st.(tasks := st.tasks + [Task(p.slice, p.hand.value)],
            prod := p.(mode := Blocked, qidx := 0, hand := None, startSlice := true))
      else
        st.(full := st.full + [Chunk(p.hand.value, p.slice, p.sent - p.qidx)],
            prod := p.(mode := Blocked, qidx := 0, hand := None))
    // the pop of fpsanx_slice_end_interim returns
    case Refill => st.(empty := st.empty[1..], prod := p.(mode := Filling, hand := Some(st.empty[0])))
    // index reset, then fpsan_slice_end
    case End =>
      var q := Producer(Between, p.slice + 1, 0, 0, None, false);
      if !p.startSlice then
        st.(tasks := st.tasks + [Task(p.slice, p.hand.value)], prod := q)
      else
        st.(full := st.full + [Chunk(p.hand.value, p.slice, p.sent - p.qidx)], prod := q)
    // fpsan_finish sets the flag and joins
    case Finish => st.(fini := true)
    // worker: try_pop succeeds
    case Take(w) =>
      st.(tasks := st.tasks[1..],
          workers := st.workers[w := Running(st.tasks[0].slice, st.tasks[0].buf, st.workers[w].cq, [])])
    // readFromBuf below the buffer size
    case Read(w) =>
      var k := st.workers[w];
      st.(workers := st.workers[w := Running(k.slice, k.buf, k.cq + 1, k.log + [st.bufs[k.buf][k.cq]])])
    // splitReadFromBuf: index reset, then fpsanx_shadow_task_interim gives the buffer back
    case Switch(w) =>
      var k := st.workers[w];
      st.(empty := st.empty + [k.buf], workers := st.workers[w := Awaiting(k.slice, 0, k.log)])
    // ... and its pop of full_list returns
    case Next(w) =>
      var k := st.workers[w];
      st.(full := st.full[1..], workers := st.workers[w := Running(k.slice, st.full[0].buf, k.cq, k.log)])
    // the shadow slice ends, resets the index, and the worker gives the buffer back
    case Done(w) =>
      var k := st.workers[w];
      st.(empty := st.empty + [k.buf], workers := st.workers[w := Idle(0)], results := st.results[k.slice := k.log])
    case Exit(w) => st.(workers := st.workers[w := Exited])
  }

  predicate IsProducerStep(step: Step) {
    step.Enter? || step.Begin? || step.Push? || step.Interim? || step.Refill? || step.End? || step.Finish?
  }

  // ------------------------------------------------------------------ buffer ownership

  ghost function One(cond: bool): nat { if cond then 1 else 0 }

  ghost function InList(q: seq<nat>, b: nat): nat {
    if q == [] then 0 else One(q[0] == b) + InList(q[1..], b)
  }

  ghost function InTasks(ts: seq<Task>, b: nat): nat {
    if ts == [] then 0 else One(ts[0].buf == b) + InTasks(ts[1..], b)
  }

  ghost function InChunks(cs: seq<Chunk>, b: nat): nat {
    if cs == [] then 0 else One(cs[0].buf == b) + InChunks(cs[1..], b)
  }

  ghost predicate Holds<V>(k: Worker<V>, b: nat) { k.Running? && k.buf == b }

  ghost function InWorkers<V>(ws: seq<Worker<V>>, b: nat): nat {
    if ws == [] then 0 else One(Holds(ws[0], b)) + InWorkers(ws[1..], b)
  }

  /** How many times index b occurs: in the three queues, the producer's hand and the workers' hands. */
  ghost function Places<V>(st: State<V>, b: nat): nat {
    InList(st.empty, b) + InTasks(st.tasks, b) + InChunks(st.full, b)
    + One(st.prod.hand == Some(b)) + InWorkers(st.workers, b)
  }

  /** Each index below NUM_QUEUES is in exactly one place, and nothing else is anywhere. */
  ghost predicate Owned<V>(c: Config<V>, st: State<V>) {
    forall b: nat :: Places(st, b) == One(b < c.NumQueues())
  }

  lemma {:induction false} InListAppend(q: seq<nat>, x: nat, b: nat)
    ensures InList(q + [x], b) == InList(q, b) + One(x == b)
  {
    if q == [] {
      assert q + [x] == [x];
    } else {
      assert (q + [x])[1..] == q[1..] + [x];
      InListAppend(q[1..], x, b);
    }
  }

  lemma {:induction false} InTasksAppend(ts: seq<Task>, t: Task, b: nat)
    ensures InTasks(ts + [t], b) == InTasks(ts, b) + One(t.buf == b)
  {
    if ts == [] {
      assert ts + [t] == [t];
    } else {
      assert (ts + [t])[1..] == ts[1..] + [t];
      InTasksAppend(ts[1..], t, b);
    }
  }

  lemma {:induction false} InChunksAppend(cs: seq<Chunk>, x: Chunk, b: nat)
    ensures InChunks(cs + [x], b) == InChunks(cs, b) + One(x.buf == b)
  {
    if cs == [] {
      assert cs + [x] == [x];
    } else {
      assert (cs + [x])[1..] == cs[1..] + [x];
      InChunksAppend(cs[1..], x, b);
    }
  }

  lemma {:induction false} InWorkersUpdate<V>(ws: seq<Worker<V>>, w: nat, k: Worker<V>, b: nat)
    requires w < |ws|
    ensures InWorkers(ws[w := k], b) + One(Holds(ws[w], b)) == InWorkers(ws, b) + One(Holds(k, b))
  {
    if w == 0 {
      assert ws[w := k][1..] == ws[1..];
    } else {
      assert ws[w := k][1..] == ws[1..][w - 1 := k];
      InWorkersUpdate(ws[1..], w - 1, k, b);
    }
  }

  lemma {:induction false} InTasksHas(ts: seq<Task>, i: nat)
    requires i < |ts|
    ensures InTasks(ts, ts[i].buf) >= 1
  {
    if i > 0 { InTasksHas(ts[1..], i - 1); }
  }

  lemma {:induction false} InChunksHas(cs: seq<Chunk>, i: nat)
    requires i < |cs|
    ensures InChunks(cs, cs[i].buf) >= 1
  {
    if i > 0 { InChunksHas(cs[1..], i - 1); }
  }

  lemma {:induction false} InWorkersHas<V>(ws: seq<Worker<V>>, w: nat)
    requires w < |ws| && ws[w].Running?
    ensures InWorkers(ws, ws[w].buf) >= 1
  {
    if w > 0 { InWorkersHas(ws[1..], w - 1); }
  }

  /** Two different workers holding b count twice. */
  lemma {:induction false} InWorkersTwice<V>(ws: seq<Worker<V>>, v: nat, w: nat, b: nat)
    requires v < w < |ws| && Holds(ws[v], b) && Holds(ws[w], b)
    ensures InWorkers(ws, b) >= 2
  {
    if v == 0 {
      InWorkersHas(ws[1..], w - 1);
    } else {
      InWorkersTwice(ws[1..], v - 1, w - 1, b);
    }
  }

  lemma OwnedProducerStep<V>(c: Config<V>, st: State<V>, step: Step, b: nat)
    requires Enabled(c, st, step) && WellFormed(c, st) && IsProducerStep(step)
    ensures Places(Apply(c, st, step), b) == Places(st, b)
  {
    hide InWorkers;
    var p := st.prod;
    if step.Interim? || step.End? {
      if p.startSlice {
        InChunksAppend(st.full, Chunk(p.hand.value, p.slice, p.sent - p.qidx), b);
      } else {
        InTasksAppend(st.tasks, Task(p.slice, p.hand.value), b);
      }
    }
  }

  lemma OwnedWorkerStep<V>(c: Config<V>, st: State<V>, step: Step, b: nat)
    requires Enabled(c, st, step) && WellFormed(c, st) && !IsProducerStep(step)
    ensures Places(Apply(c, st, step), b) == Places(st, b)
  {
    hide WellFormed, InWorkers;
    var st', w := Apply(c, st, step), step.w;
    InWorkersUpdate(st.workers, w, st'.workers[w], b);
    if step.Switch? || step.Done? { InListAppend(st.empty, st.workers[w].buf, b); }
  }

  /** Every action moves at most one index, from one place to one other. */
  lemma OwnedStep<V>(c: Config<V>, st: State<V>, step: Step, b: nat)
    requires Enabled(c, st, step) && WellFormed(c, st)
    ensures Places(Apply(c, st, step), b) == Places(st, b)
  {
    hide Enabled, WellFormed, Places;
    if IsProducerStep(step) { OwnedProducerStep(c, st, step, b); } else { OwnedWorkerStep(c, st, step, b); }
  }

  // ------------------------------------------------------------------ streams

  /** Buffer contents that start with the values of slice s from position `from` on:
      as many as fit, or as many as the slice has. */
  ghost predicate Loaded<V>(c: Config<V>, buf: seq<V>, s: nat, from: nat) {
    && s < |c.slices|
    && from <= |c.slices[s]|
    && |buf| == c.bufSize
    && forall i :: 0 <= i < c.bufSize && from + i < |c.slices[s]| ==> buf[i] == c.slices[s][from + i]
  }

  /** Number of slices whose first buffer has been put on the task queue. */
  ghost function Started(p: Producer): nat { if p.startSlice then p.slice + 1 else p.slice }

  ghost predicate ProducerInv<V>(c: Config<V>, st: State<V>) {
    var p := st.prod;
    match p.mode
    case Between => p.slice <= |c.slices| && p.sent == 0 && p.qidx == 0 && !p.startSlice
    case Filling =>
      && p.slice < |c.slices| && p.hand.Some? && p.sent <= |c.slices[p.slice]|
      && p.qidx <= c.bufSize && p.qidx <= p.sent
      && (p.startSlice <==> p.sent > p.qidx)
      && (p.startSlice ==> p.sent - p.qidx >= c.bufSize)
      && (p.qidx == 0 && p.startSlice ==> p.sent < |c.slices[p.slice]|)
      && p.hand.value < |st.bufs| && |st.bufs[p.hand.value]| == c.bufSize
      && forall i :: 0 <= i < p.qidx ==> st.bufs[p.hand.value][i] == c.slices[p.slice][p.sent - p.qidx + i]
    case Blocked =>
      && p.slice < |c.slices| && p.qidx == 0 && p.startSlice
      && c.bufSize <= p.sent < |c.slices[p.slice]|
  }

  /** The task queue holds the last |tasks| of the started slices, in order. */
  ghost predicate TasksInv<V>(c: Config<V>, st: State<V>) {
    && |st.tasks| <= Started(st.prod)
    && forall i :: 0 <= i < |st.tasks| ==>
         && st.tasks[i].slice == Started(st.prod) - |st.tasks| + i
         && st.tasks[i].buf < |st.bufs|
         && Loaded(c, st.bufs[st.tasks[i].buf], st.tasks[i].slice, 0)
  }

  ghost predicate FullInv<V>(c: Config<V>, st: State<V>) {
    forall i :: 0 <= i < |st.full| ==>
      && st.full[i].slice < Started(st.prod)
      && st.full[i].buf < |st.bufs|
      && st.full[i].from >= c.bufSize
      && Loaded(c, st.bufs[st.full[i].buf], st.full[i].slice, st.full[i].from)
      && st.full[i].from < |c.slices[st.full[i].slice]|
  }

  ghost function Taken<V>(st: State<V>): int { Started(st.prod) - |st.tasks| }

  /** What a worker has read is a prefix of what was pushed for its slice. */
  ghost predicate Consistent<V>(c: Config<V>, st: State<V>, k: Worker<V>) {
    match k
    case Idle(cq) => cq == 0
    case Exited => true
    case Running(s, b, cq, log) =>
      && s < |c.slices| && s < Taken(st)
      && log <= c.slices[s] && cq <= c.bufSize && cq <= |log|
      && b < |st.bufs| && Loaded(c, st.bufs[b], s, |log| - cq)
    case Awaiting(s, cq, log) =>
      && s < |c.slices| && s < Taken(st) && cq == 0 && c.bufSize <= |log|
      && log <= c.slices[s] && |log| < |c.slices[s]|
  }

  ghost predicate WorkersInv<V>(c: Config<V>, st: State<V>) {
    && |st.workers| == c.workers
    && forall w :: 0 <= w < |st.workers| ==> Consistent(c, st, st.workers[w])
  }

  ghost predicate OnSlice<V>(k: Worker<V>, s: nat) { (k.Running? || k.Awaiting?) && k.slice == s }

  /** Every taken slice is finished, with exactly its values, or being run. */
  ghost predicate ResultsInv<V>(c: Config<V>, st: State<V>) {
    && (forall s :: s in st.results ==> s < |c.slices| && s < Taken(st) && st.results[s] == c.slices[s])
    && (forall s: nat :: s < Taken(st) ==>
          s in st.results || exists w :: 0 <= w < |st.workers| && OnSlice(st.workers[w], s))
  }

  // ---- the order of full_list, which only the worker on a long slice pops

  /** The first buffer, at or after slice s, that travels through full_list. */
  ghost function First<V>(c: Config<V>, s: nat): (nat, nat)
    decreases |c.slices| - s
  {
    if s >= |c.slices| then (|c.slices|, 0)
    else if |c.slices[s]| > c.bufSize then (s, c.bufSize)
    else First(c, s + 1)
  }

  /** The buffer that travels through full_list after the one starting at position `from` of slice s. */
  ghost function Succ<V>(c: Config<V>, s: nat, from: nat): (nat, nat) {
    if from + c.bufSize < c.Len(s) then (s, from + c.bufSize) else First(c, s + 1)
  }

  lemma {:induction false} FirstFrom<V>(c: Config<V>, s: nat)
    ensures First(c, s).0 >= s || First(c, s).0 == |c.slices|
    decreases |c.slices| - s
  {
    if s < |c.slices| { FirstFrom(c, s + 1); }
  }

  lemma {:induction false} FirstSkip<V>(c: Config<V>, s: nat, t: nat)
    requires s <= t && forall u: nat :: s <= u < t ==> !c.Long(u)
    ensures First(c, s) == First(c, t)
    decreases t - s
  {
    if s < t {
      assert !c.Long(s);
      FirstSkip(c, s + 1, t);
    }
  }

  ghost predicate OnLong<V>(c: Config<V>, k: Worker<V>) { (k.Running? || k.Awaiting?) && c.Long(k.slice) }

  ghost predicate NoneOnLong<V>(c: Config<V>, ws: seq<Worker<V>>) { forall w :: 0 <= w < |ws| ==> !OnLong(c, ws[w]) }

  /** The buffer that a worker on a long slice will pop from full_list next. */
  ghost function Expected<V>(c: Config<V>, k: Worker<V>): (nat, nat) {
    match k
    case Running(s, _, cq, log) => if cq <= |log| then Succ(c, s, |log| - cq) else (0, 0)
    case Awaiting(s, _, log) => (s, |log|)
    case _ => (0, 0)
  }

  /** If none is on a long slice: the first buffer of the slices not taken yet. */
  ghost function Untaken<V>(c: Config<V>, st: State<V>): (nat, nat) {
    if Taken(st) >= 0 then First(c, Taken(st)) else (0, 0)
  }

  /** The buffer the producer will push to full_list next. */
  ghost function Upcoming<V>(c: Config<V>, p: Producer): (nat, nat) {
    if p.sent > p.qidx then (p.slice, p.sent - p.qidx) else First(c, p.slice)
  }

  ghost function Tag(x: Chunk): (nat, nat) { (x.slice, x.from) }

  /** full_list is a gap-free stretch of buffers starting with `a` and ending just before `z`. */
  ghost predicate Chain<V>(c: Config<V>, full: seq<Chunk>, a: (nat, nat), z: (nat, nat)) {
    if full == [] then a == z
    else Tag(full[0]) == a && Chain(c, full[1..], Succ(c, a.0, a.1), z)
  }

  lemma {:induction false} ChainAppend<V>(c: Config<V>, full: seq<Chunk>, a: (nat, nat), x: Chunk)
    requires Chain(c, full, a, Tag(x))
    ensures Chain(c, full + [x], a, Succ(c, x.slice, x.from))
  {
    if full == [] {
      assert full + [x] == [x];
      assert [x][1..] == [];
    } else {
      assert (full + [x])[1..] == full[1..] + [x];
      ChainAppend(c, full[1..], Succ(c, a.0, a.1), x);
    }
  }

  ghost predicate OrderInv<V>(c: Config<V>, st: State<V>) {
    && (forall w :: 0 <= w < |st.workers| && OnLong(c, st.workers[w]) ==>
          Chain(c, st.full, Expected(c, st.workers[w]), Upcoming(c, st.prod)))
    && (NoneOnLong(c, st.workers) ==> Chain(c, st.full, Untaken(c, st), Upcoming(c, st.prod)))
    && SlicesApart(st.workers) && (c.workers == 1 ==> OnLatest(st))
  }

  /** No two workers are on the same slice. */
  ghost predicate SlicesApart<V>(ws: seq<Worker<V>>) {
    forall v, w :: 0 <= v < |ws| && 0 <= w < |ws| && v != w && (ws[v].Running? || ws[v].Awaiting?)
      && (ws[w].Running? || ws[w].Awaiting?)
      ==> ws[v].slice != ws[w].slice
  }

  /** The only worker is on the slice taken last. */
  ghost predicate OnLatest<V>(st: State<V>) {
    forall w :: 0 <= w < |st.workers| && (st.workers[w].Running? || st.workers[w].Awaiting?) ==>
      st.workers[w].slice == Taken(st) - 1
  }

  /** At most one worker is on a long slice. */
  lemma OneOnLong<V>(c: Config<V>, ws: seq<Worker<V>>, v: nat, w: nat)
    requires c.Supported() && |ws| == c.workers && SlicesApart(ws) && v < |ws| && w < |ws| && OnLong(c, ws[v])
      && OnLong(c, ws[w])
    ensures v == w
  {}

  ghost predicate Inv<V>(c: Config<V>, st: State<V>) {
    && WellFormed(c, st) && Owned(c, st)
    && ProducerInv(c, st) && TasksInv(c, st) && FullInv(c, st) && WorkersInv(c, st)
    && ResultsInv(c, st) && OrderInv(c, st) && FiniInv(c, st)
  }

  /** The flag is set after the last slice, and a worker leaves only when there is nothing left to take. */
  ghost predicate FiniInv<V>(c: Config<V>, st: State<V>) {
    && (st.fini ==> st.prod.mode == Between && st.prod.slice >= |c.slices|)
    && (forall w :: 0 <= w < |st.workers| && st.workers[w].Exited? ==> st.fini && st.tasks == [])
  }

  ghost predicate HandExclusive<V>(st: State<V>) {
    st.prod.hand.Some? ==>
      var h := st.prod.hand.value;
      && (forall i :: 0 <= i < |st.tasks| ==> st.tasks[i].buf != h)
      && (forall i :: 0 <= i < |st.full| ==> st.full[i].buf != h)
      && (forall w :: 0 <= w < |st.workers| && st.workers[w].Running? ==> st.workers[w].buf != h)
  }

  /** No buffer is written and read at once: the producer's buffer is nobody else's. */
  lemma HandIsExclusive<V>(c: Config<V>, st: State<V>)
    requires Owned(c, st) && st.prod.hand.Some?
    ensures HandExclusive(st)
  {
    var h := st.prod.hand.value;
    assert Places(st, h) <= 1;
    forall i | 0 <= i < |st.tasks| ensures st.tasks[i].buf != h { InTasksHas(st.tasks, i); }
    forall i | 0 <= i < |st.full| ensures st.full[i].buf != h { InChunksHas(st.full, i); }
    forall w | 0 <= w < |st.workers| && st.workers[w].Running? ensures st.workers[w].buf != h {
      InWorkersHas(st.workers, w);
    }
  }

  /** Two workers never hold the same buffer. */
  lemma WorkersAreExclusive<V>(c: Config<V>, st: State<V>, v: nat, w: nat)
    requires Owned(c, st) && v < w < |st.workers| && st.workers[v].Running? && st.workers[w].Running?
    ensures st.workers[v].buf != st.workers[w].buf
  {
    if st.workers[v].buf == st.workers[w].buf {
      assert Places(st, st.workers[w].buf) <= 1;
      InWorkersTwice(st.workers, v, w, st.workers[w].buf);
    }
  }

  lemma OwnedAfter<V>(c: Config<V>, st: State<V>, step: Step)
    requires Inv(c, st) && Enabled(c, st, step)
    ensures Owned(c, Apply(c, st, step))
  {
    forall b: nat ensures Places(Apply(c, st, step), b) == One(b < c.NumQueues()) {
      OwnedStep(c, st, step, b);
      assert Places(st, b) == One(b < c.NumQueues());
    }
  }

  /** Whatever is in the empty list is a valid index. */
  lemma EmptyInRange<V>(c: Config<V>, st: State<V>)
    requires Owned(c, st) && st.empty != []
    ensures st.empty[0] < c.NumQueues()
  {
    assert Places(st, st.empty[0]) == One(st.empty[0] < c.NumQueues());
  }

  /** Everything the streams need, apart from the results and the order of full_list. */
  ghost predicate Core<V>(c: Config<V>, st: State<V>) {
    WellFormed(c, st) && ProducerInv(c, st) && TasksInv(c, st) && FullInv(c, st) && WorkersInv(c, st)
  }

  lemma PushKeeps<V>(c: Config<V>, st: State<V>)
    requires Core(c, st) && HandExclusive(st) && Enabled(c, st, Push)
    ensures Core(c, Apply(c, st, Push))
  {
    var st' := Apply(c, st, Push);
    var h := st.prod.hand.value;
    assert forall b :: 0 <= b < |st.bufs| && b != h ==> st'.bufs[b] == st.bufs[b];
    assert Started(st'.prod) == Started(st.prod);
    assert ProducerInv(c, st');
    assert TasksInv(c, st');
    assert FullInv(c, st');
    forall w | 0 <= w < |st.workers| ensures Consistent(c, st', st'.workers[w]) {
      assert Consistent(c, st, st.workers[w]);
    }
  }

  lemma HandOnKeeps<V>(c: Config<V>, st: State<V>, step: Step)
    requires c.bufSize >= 1 && Core(c, st) && Enabled(c, st, step) && (step.Interim? || step.End?)
    ensures Core(c, Apply(c, st, step))
  {
    var p, st' := st.prod, Apply(c, st, step);
    HandedOn(c, st, step);
    WorkersStay(c, st, st');
  }

  /** The buffer the producer hands on holds the slice's values from where it started. */
  lemma HandedOn<V>(c: Config<V>, st: State<V>, step: Step)
    requires c.bufSize >= 1 && WellFormed(c, st) && ProducerInv(c, st) && TasksInv(c, st) && FullInv(c, st)
    requires Enabled(c, st, step) && (step.Interim? || step.End?)
    ensures var st' := Apply(c, st, step);
      && WellFormed(c, st') && ProducerInv(c, st') && TasksInv(c, st') && FullInv(c, st')
      && st'.workers == st.workers && st'.bufs == st.bufs && Taken(st') == Taken(st)
  {
    HandedToTasks(c, st, step);
    HandedToFull(c, st, step);
    hide TasksInv, FullInv;
  }

  lemma HandedToTasks<V>(c: Config<V>, st: State<V>, step: Step)
    requires c.bufSize >= 1 && WellFormed(c, st) && ProducerInv(c, st) && TasksInv(c, st)
    requires Enabled(c, st, step) && (step.Interim? || step.End?)
    ensures TasksInv(c, Apply(c, st, step))
  {
    var p := st.prod;
    assert Loaded(c, st.bufs[p.hand.value], p.slice, p.sent - p.qidx);
    hide Loaded;
  }

  lemma HandedToFull<V>(c: Config<V>, st: State<V>, step: Step)
    requires c.bufSize >= 1 && WellFormed(c, st) && ProducerInv(c, st) && FullInv(c, st)
    requires Enabled(c, st, step) && (step.Interim? || step.End?)
    ensures FullInv(c, Apply(c, st, step))
  {
    var p := st.prod;
    assert Loaded(c, st.bufs[p.hand.value], p.slice, p.sent - p.qidx);
    hide Loaded;
  }

  /** Workers need the buffers and the slices taken so far. */
  lemma WorkersStay<V>(c: Config<V>, st: State<V>, st': State<V>)
    requires WorkersInv(c, st) && st'.workers == st.workers && st'.bufs == st.bufs && Taken(st') >= Taken(st)
    ensures WorkersInv(c, st')
  {
    forall w | 0 <= w < |st.workers| ensures Consistent(c, st', st'.workers[w]) {
      assert Consistent(c, st, st.workers[w]);
    }
  }

  lemma PickUpKeeps<V>(c: Config<V>, st: State<V>, step: Step)
    requires c.bufSize >= 1 && Core(c, st) && Owned(c, st) && Enabled(c, st, step)
    requires step.Enter? || step.Begin? || step.Refill? || step.Finish?
    ensures Core(c, Apply(c, st, step))
  {
    if st.empty != [] { EmptyInRange(c, st); }
    WorkersStay(c, st, Apply(c, st, step));
  }

  /** A worker that reads or stops sees what `more` promises about its log. */
  lemma MoreIffShort<V>(c: Config<V>, st: State<V>, k: Worker<V>)
    requires c.Faithful() && Consistent(c, st, k) && (k.Running? || k.Awaiting?)
    ensures c.more(k.slice, k.log) <==> |k.log| < |c.slices[k.slice]|
  {
    assert k.log == c.slices[k.slice][..|k.log|];
  }

  lemma TakeKeeps<V>(c: Config<V>, st: State<V>, w: nat)
    requires Core(c, st) && Enabled(c, st, Take(w))
    ensures Core(c, Apply(c, st, Take(w)))
  {
    var st' := Apply(c, st, Take(w));
    assert Consistent(c, st, st.workers[w]);
    assert Taken(st') == Taken(st) + 1;
    assert Consistent(c, st', st'.workers[w]);
    forall v | 0 <= v < |st.workers| && v != w ensures Consistent(c, st', st'.workers[v]) {
      assert Consistent(c, st, st.workers[v]);
    }
  }

  /** A worker whose action touches no buffer, no queue of loaded buffers and not the producer
      need only account for itself. */
  lemma OthersKeep<V>(c: Config<V>, st: State<V>, st': State<V>, w: nat)
    requires WorkersInv(c, st) && w < |st.workers| && |st'.workers| == |st.workers|
    requires st'.bufs == st.bufs && Taken(st') >= Taken(st)
    requires st'.workers == st.workers[w := st'.workers[w]] && Consistent(c, st', st'.workers[w])
    ensures WorkersInv(c, st')
  {
    forall v | 0 <= v < |st.workers| && v != w ensures Consistent(c, st', st'.workers[v]) {
      assert st'.workers[v] == st.workers[v] && Consistent(c, st, st.workers[v]);
    }
  }

  lemma ReadKeeps<V>(c: Config<V>, st: State<V>, w: nat)
    requires c.Faithful() && Core(c, st) && Enabled(c, st, Read(w))
    ensures Core(c, Apply(c, st, Read(w)))
  {
    var st' := Apply(c, st, Read(w));
    var k := st.workers[w];
    assert Consistent(c, st, k);
    MoreIffShort(c, st, k);
    assert st.bufs[k.buf][k.cq] == c.slices[k.slice][|k.log|];
    assert k.log + [st.bufs[k.buf][k.cq]] == c.slices[k.slice][..|k.log| + 1];
    assert Consistent(c, st', st'.workers[w]);
    OthersKeep(c, st, st', w);
  }

  lemma SwitchKeeps<V>(c: Config<V>, st: State<V>, w: nat)
    requires c.Faithful() && Core(c, st) && Enabled(c, st, Switch(w))
    ensures Core(c, Apply(c, st, Switch(w)))
  {
    var st' := Apply(c, st, Switch(w));
    assert Consistent(c, st, st.workers[w]);
    MoreIffShort(c, st, st.workers[w]);
    OthersKeep(c, st, st', w);
  }

  lemma StopKeeps<V>(c: Config<V>, st: State<V>, step: Step)
    requires Core(c, st) && (step.Done? || step.Exit?) && Enabled(c, st, step)
    ensures Core(c, Apply(c, st, step))
  {
    OthersKeep(c, st, Apply(c, st, step), step.w);
  }

  /** A worker that pops the buffer that continues its slice ... */
  lemma NextIfItsOwn<V>(c: Config<V>, st: State<V>, w: nat)
    requires Core(c, st) && Enabled(c, st, Next(w)) && st.full[0].slice == st.workers[w].slice
      && st.full[0].from == |st.workers[w].log|
    ensures Core(c, Apply(c, st, Next(w)))
  {
    var st' := Apply(c, st, Next(w));
    var k := st.workers[w];
    assert Consistent(c, st, k);
    assert Loaded(c, st.bufs[st.full[0].buf], k.slice, |k.log|);
    assert Consistent(c, st', st'.workers[w]);
    OthersKeep(c, st, st', w);
  }

  /** ... which is what it finds in full_list. */
  lemma NextIsItsOwn<V>(c: Config<V>, st: State<V>, w: nat)
    requires c.Supported() && Inv(c, st) && w < |st.workers| && st.workers[w].Awaiting? && st.full != []
    ensures st.full[0].slice == st.workers[w].slice && st.full[0].from == |st.workers[w].log|
  {
    var k := st.workers[w];
    assert Consistent(c, st, k);
    assert OnLong(c, k);
    assert Chain(c, st.full, Expected(c, k), Upcoming(c, st.prod));
    assert Tag(st.full[0]) == (k.slice, |k.log|);
  }

  lemma CoreAfter<V>(c: Config<V>, st: State<V>, step: Step)
    requires c.bufSize >= 1 && c.Faithful() && Core(c, st) && Owned(c, st) && Enabled(c, st, step)
    requires step.Next? ==> st.full[0].slice == st.workers[step.w].slice && st.full[0].from == |st.workers[step.w].log|
    ensures Core(c, Apply(c, st, step))
  {
    match step
    case Push =>
      HandIsExclusive(c, st);
      PushKeeps(c, st);
    case Interim | End => HandOnKeeps(c, st, step);
    case Enter | Begin | Refill | Finish => PickUpKeeps(c, st, step);
    case Take(w) => TakeKeeps(c, st, w);
    case Next(w) => NextIfItsOwn(c, st, w);
    case Read(w) => ReadKeeps(c, st, w);
    case Switch(w) => SwitchKeeps(c, st, w);
    case Done(_) | Exit(_) => StopKeeps(c, st, step);
  }

  /** A worker that is done has read its slice. */
  lemma DoneRead<V>(c: Config<V>, st: State<V>, step: Step)
    requires c.Faithful() && Core(c, st) && Enabled(c, st, step) && step.Done?
    ensures step.w < |st.workers| && st.workers[step.w].Running?
    ensures st.workers[step.w].slice < |c.slices| && st.workers[step.w].slice < Taken(st)
    ensures st.workers[step.w].log == c.slices[st.workers[step.w].slice]
  {
    var k := st.workers[step.w];
    assert Consistent(c, st, k);
    MoreIffShort(c, st, k);
  }

  lemma ResultsAfter<V>(c: Config<V>, st: State<V>, step: Step)
    requires c.Faithful() && Core(c, st) && ResultsInv(c, st) && Enabled(c, st, step)
    ensures ResultsInv(c, Apply(c, st, step))
  {
    hide Consistent, Config.Faithful, ProducerInv, FullInv, TasksInv, WorkersInv;
    if step.Take? {
      ResultsTake(c, st, step.w);
    } else {
      if step.Done? { DoneRead(c, st, step); }
      ResultsStay(c, st, step);
    }
  }

  lemma ResultsTake<V>(c: Config<V>, st: State<V>, w: nat)
    requires Core(c, st) && ResultsInv(c, st) && Enabled(c, st, Take(w))
    ensures ResultsInv(c, Apply(c, st, Take(w)))
  {
    TakenNext(c, st, w);
    hide Core;
    var st' := Apply(c, st, Take(w));
    assert OnSlice(st'.workers[w], Taken(st)) && Taken(st') == Taken(st) + 1;
    forall s: nat | s < Taken(st) && s !in st.results
      ensures exists v :: 0 <= v < |st'.workers| && OnSlice(st'.workers[v], s)
    {
      var v :| 0 <= v < |st.workers| && OnSlice(st.workers[v], s);
      assert OnSlice(st'.workers[v], s);
    }
  }

  lemma ResultsStay<V>(c: Config<V>, st: State<V>, step: Step)
    requires WellFormed(c, st) && ResultsInv(c, st) && Enabled(c, st, step) && !step.Take?
    requires step.Done? ==>
      var k := st.workers[step.w]; k.slice < |c.slices| && k.slice < Taken(st) && k.log == c.slices[k.slice]
    ensures ResultsInv(c, Apply(c, st, step))
  {
    var st' := Apply(c, st, step);
    assert Taken(st') == Taken(st) && |st'.workers| == |st.workers|;
    hide WellFormed, Taken;
    forall s: nat | s < Taken(st') && s !in st'.results
      ensures exists w :: 0 <= w < |st'.workers| && OnSlice(st'.workers[w], s)
    {
      var w :| 0 <= w < |st.workers| && OnSlice(st.workers[w], s);
      assert OnSlice(st'.workers[w], s);
    }
  }

  /** What the producer appends to full_list is the buffer that was upcoming. */
  lemma UpcomingAfter<V>(c: Config<V>, st: State<V>, step: Step)
    requires c.bufSize >= 1 && ProducerInv(c, st) && WellFormed(c, st) && Enabled(c, st, step) && IsProducerStep(step)
    ensures var st' := Apply(c, st, step);
      && Taken(st') == Taken(st) && st'.workers == st.workers
      && if (step.Interim? || step.End?) && st.prod.startSlice
         then |st'.full| > 0 && st'.full == st.full + [st'.full[|st.full|]]
           && Tag(st'.full[|st.full|]) == Upcoming(c, st.prod)
              && Upcoming(c, st'.prod) == Succ(c, Upcoming(c, st.prod).0, Upcoming(c, st.prod).1)
         else st'.full == st.full && Upcoming(c, st'.prod) == Upcoming(c, st.prod)
  {}

  lemma OrderAfterProducer<V>(c: Config<V>, st: State<V>, step: Step)
    requires c.bufSize >= 1 && ProducerInv(c, st) && WellFormed(c, st) && OrderInv(c, st)
    requires Enabled(c, st, step) && IsProducerStep(step)
    ensures OrderInv(c, Apply(c, st, step))
  {
    hide ProducerInv, WellFormed, Enabled, Apply, Upcoming, Expected, Chain, Succ;
    var st' := Apply(c, st, step);
    UpcomingAfter(c, st, step);
    if (step.Interim? || step.End?) && st.prod.startSlice {
      var x := st'.full[|st.full|];
      forall w | 0 <= w < |st.workers| && OnLong(c, st.workers[w])
        ensures Chain(c, st'.full, Expected(c, st'.workers[w]), Upcoming(c, st'.prod))
      {
        ChainAppend(c, st.full, Expected(c, st.workers[w]), x);
      }
      if NoneOnLong(c, st.workers) { ChainAppend(c, st.full, Untaken(c, st), x); }
    }
  }

  /** A worker takes a slice: if it is long, no other worker is on a long one. */
  lemma OrderTake<V>(c: Config<V>, st: State<V>, w: nat)
    requires c.Supported() && Core(c, st) && OrderInv(c, st) && Enabled(c, st, Take(w))
    ensures OrderInv(c, Apply(c, st, Take(w)))
  {
    hide Chain, ProducerInv, TasksInv, FullInv, WorkersInv;
    TakenNext(c, st, w);
    var st' := Apply(c, st, Take(w));
    var s := st.tasks[0].slice;
    assert Taken(st') == s + 1;
    forall v | 0 <= v < |st.workers| && v != w && OnLong(c, st.workers[v]) ensures !c.Long(s) {
      assert st.workers[v].slice < s;
    }
    if c.Long(s) {
      assert NoneOnLong(c, st.workers);
      assert OnLong(c, st'.workers[w]) && Expected(c, st'.workers[w]) == Untaken(c, st);
    } else {
      FirstSkip(c, s, s + 1);
      assert forall v :: 0 <= v < |st.workers| ==> (OnLong(c, st'.workers[v]) <==> OnLong(c, st.workers[v]));
    }
  }

  lemma TakenNext<V>(c: Config<V>, st: State<V>, w: nat)
    requires Core(c, st) && Enabled(c, st, Take(w))
    ensures st.tasks[0].slice == Taken(st) && st.workers[w] == Idle(0) && |st.workers| == c.workers
    ensures forall v ::
      0 <= v < |st.workers| && (st.workers[v].Running? || st.workers[v].Awaiting?) ==> st.workers[v].slice < Taken(st)
  {
    assert Consistent(c, st, st.workers[w]);
    forall v | 0 <= v < |st.workers| && (st.workers[v].Running? || st.workers[v].Awaiting?)
      ensures st.workers[v].slice < Taken(st)
    {
      assert Consistent(c, st, st.workers[v]);
    }
  }

  /** A worker stays on its slice and waits for the same buffer as before ... */
  lemma OrderSame<V>(c: Config<V>, st: State<V>, st': State<V>, w: nat)
    requires OrderInv(c, st) && st'.full == st.full && st'.prod == st.prod && st'.tasks == st.tasks
    requires w < |st.workers| == |st'.workers| && st'.workers == st.workers[w := st'.workers[w]]
    requires (st.workers[w].Running? || st.workers[w].Awaiting?)
      && (st'.workers[w].Running? || st'.workers[w].Awaiting?)
    requires st'.workers[w].slice == st.workers[w].slice
    requires OnLong(c, st.workers[w]) ==> Expected(c, st'.workers[w]) == Expected(c, st.workers[w])
    ensures OrderInv(c, st')
  {
    hide Chain, Expected;
    assert Taken(st') == Taken(st);
    assert forall v :: 0 <= v < |st.workers| ==> (OnLong(c, st'.workers[v]) <==> OnLong(c, st.workers[v]));
  }

  lemma OrderRead<V>(c: Config<V>, st: State<V>, step: Step)
    requires c.Supported() && Core(c, st) && OrderInv(c, st) && Enabled(c, st, step) && (step.Read? || step.Switch?)
    ensures OrderInv(c, Apply(c, st, step))
  {
    hide OrderInv;
    var k := st.workers[step.w];
    assert Consistent(c, st, k);
    MoreIffShort(c, st, k);
    OrderSame(c, st, Apply(c, st, step), step.w);
  }

  /** ... or, having popped it, for the one after that. */
  lemma OrderNext<V>(c: Config<V>, st: State<V>, w: nat)
    requires c.Supported() && Core(c, st) && OrderInv(c, st) && Enabled(c, st, Next(w))
    ensures OrderInv(c, Apply(c, st, Next(w)))
  {
    var st' := Apply(c, st, Next(w));
    var k, k' := st.workers[w], st'.workers[w];
    assert Consistent(c, st, k);
    assert Taken(st') == Taken(st) && OnLong(c, k) && OnLong(c, k');
    assert Expected(c, k') == Succ(c, k.slice, |k.log|);
    assert Chain(c, st'.full, Expected(c, k'), Upcoming(c, st'.prod)) by {
      assert Chain(c, st.full, Expected(c, k), Upcoming(c, st.prod));
    }
    NextOrder(c, st, st', w);
  }

  lemma NextOrder<V>(c: Config<V>, st: State<V>, st': State<V>, w: nat)
    requires c.Supported() && |st.workers| == c.workers && OrderInv(c, st) && Taken(st') == Taken(st)
    requires w < |st.workers| == |st'.workers| && st'.workers == st.workers[w := st'.workers[w]]
    requires OnLong(c, st.workers[w]) && OnLong(c, st'.workers[w]) && st'.workers[w].slice == st.workers[w].slice
    requires Chain(c, st'.full, Expected(c, st'.workers[w]), Upcoming(c, st'.prod))
    ensures OrderInv(c, st')
  {
    hide Chain, Expected;
    forall v | 0 <= v < |st.workers| && OnLong(c, st.workers[v]) ensures v == w { OneOnLong(c, st.workers, v, w); }
  }

  /** A worker is done with a slice: after a long one, the next long one has not been taken. */
  lemma OrderDone<V>(c: Config<V>, st: State<V>, w: nat)
    requires c.Supported() && Core(c, st) && OrderInv(c, st) && Enabled(c, st, Done(w))
    ensures OrderInv(c, Apply(c, st, Done(w)))
  {
    hide OrderInv;
    var st' := Apply(c, st, Done(w));
    var k := st.workers[w];
    DoneRead(c, st, Done(w));
    assert Consistent(c, st, k);
    OrderFreed(c, st, st', w);
  }

  lemma OrderFreed<V>(c: Config<V>, st: State<V>, st': State<V>, w: nat)
    requires c.Supported() && OrderInv(c, st) && st'.full == st.full && st'.prod == st.prod && st'.tasks == st.tasks
    requires |st.workers| == c.workers && w < |st.workers| && st'.workers == st.workers[w := Idle(0)]
    requires var k := st.workers[w];
      k.Running? && k.cq <= |k.log| && k.cq <= c.bufSize && |k.log| == c.Len(k.slice) && k.slice < Taken(st)
    ensures OrderInv(c, st')
  {
    hide Chain, Config.Faithful, First;
    assert Taken(st') == Taken(st);
    var k := st.workers[w];
    if OnLong(c, k) {
      forall v | 0 <= v < |st.workers| && v != w ensures !OnLong(c, st.workers[v]) {
        if OnLong(c, st.workers[v]) { OneOnLong(c, st.workers, v, w); }
      }
      FirstSkip(c, k.slice + 1, Taken(st));
      assert Expected(c, k) == Untaken(c, st');
    } else {
      assert forall v :: 0 <= v < |st.workers| ==> (OnLong(c, st'.workers[v]) <==> OnLong(c, st.workers[v]));
    }
  }

  lemma OrderExit<V>(c: Config<V>, st: State<V>, w: nat)
    requires WellFormed(c, st) && OrderInv(c, st) && Enabled(c, st, Exit(w))
    ensures OrderInv(c, Apply(c, st, Exit(w)))
  {
    hide Chain;
    var st' := Apply(c, st, Exit(w));
    assert Taken(st') == Taken(st);
    assert forall v :: 0 <= v < |st.workers| ==> (OnLong(c, st'.workers[v]) <==> OnLong(c, st.workers[v]));
  }

  lemma OrderAfter<V>(c: Config<V>, st: State<V>, step: Step)
    requires c.Supported() && Core(c, st) && OrderInv(c, st) && Enabled(c, st, step)
    ensures OrderInv(c, Apply(c, st, step))
  {
    hide OrderInv;
    match step
    case Take(w) => OrderTake(c, st, w);
    case Done(w) => OrderDone(c, st, w);
    case Exit(w) => OrderExit(c, st, w);
    case Read(_) | Switch(_) => OrderRead(c, st, step);
    case Next(w) => OrderNext(c, st, w);
    case _ => OrderAfterProducer(c, st, step);
  }

  lemma FiniAfter<V>(c: Config<V>, st: State<V>, step: Step)
    requires WellFormed(c, st) && FiniInv(c, st) && ProducerInv(c, st) && Enabled(c, st, step)
    ensures FiniInv(c, Apply(c, st, step))
  {}

  lemma InvAfter<V>(c: Config<V>, st: State<V>, step: Step)
    requires c.Supported() && Inv(c, st) && Enabled(c, st, step)
    ensures Inv(c, Apply(c, st, step))
  {
    if step.Next? { NextIsItsOwn(c, st, step.w); }
    CoreAfter(c, st, step);
    OwnedAfter(c, st, step);
    ResultsAfter(c, st, step);
    FiniAfter(c, st, step);
    OrderAfter(c, st, step);
  }

  lemma InitInv<V>(c: Config<V>, st: State<V>)
    requires c.Supported() && Init(c, st)
    ensures Inv(c, st)
  {
    InitOwned(c, st);
  }

  lemma {:induction false} InListRange(q: seq<nat>, lo: nat, b: nat)
    requires forall i :: 0 <= i < |q| ==> q[i] == lo + i
    ensures InList(q, b) == One(lo <= b < lo + |q|)
  {
    if q != [] { InListRange(q[1..], lo + 1, b); }
  }

  lemma {:induction false} NoWorkerHolds<V>(ws: seq<Worker<V>>, b: nat)
    requires forall w :: 0 <= w < |ws| ==> !ws[w].Running?
    ensures InWorkers(ws, b) == 0
  {
    if ws != [] { NoWorkerHolds(ws[1..], b); }
  }

  lemma InitOwned<V>(c: Config<V>, st: State<V>)
    requires Init(c, st)
    ensures Owned(c, st)
  {
    forall b: nat ensures Places(st, b) == One(b < c.NumQueues()) {
      InListRange(st.empty, 0, b);
      NoWorkerHolds(st.workers, b);
    }
  }

  // ------------------------------------------------------------------ runs

  /** A run from st: each step is possible in the state the earlier ones lead to. */
  ghost predicate IsRun<V>(c: Config<V>, st: State<V>, run: seq<Step>)
    decreases |run|
  {
    run == [] || (WellFormed(c, st) && Enabled(c, st, run[0]) && IsRun(c, Apply(c, st, run[0]), run[1..]))
  }

  ghost function After<V>(c: Config<V>, st: State<V>, run: seq<Step>): State<V>
    requires IsRun(c, st, run)
    decreases |run|
  {
    if run == [] then st else After(c, Apply(c, st, run[0]), run[1..])
  }

  lemma {:induction false} InvAlong<V>(c: Config<V>, st: State<V>, run: seq<Step>)
    requires c.Supported() && Inv(c, st) && IsRun(c, st, run)
    ensures Inv(c, After(c, st, run))
    decreases |run|
  {
    if run != [] {
      InvAfter(c, st, run[0]);
      InvAlong(c, Apply(c, st, run[0]), run[1..]);
    }
  }

  /** Ownership needs none of the stream conditions: any number of workers, slices of any
      length, and shadows that read whatever they like. */
  lemma OwnedWellFormedAfter<V>(c: Config<V>, st: State<V>, step: Step)
    requires WellFormed(c, st) && Owned(c, st) && Enabled(c, st, step)
    ensures var st' := Apply(c, st, step); WellFormed(c, st') && Owned(c, st')
  {
    var st' := Apply(c, st, step);
    forall b: nat ensures Places(st', b) == One(b < c.NumQueues()) {
      OwnedStep(c, st, step, b);
      assert Places(st, b) == One(b < c.NumQueues());
    }
    if st'.prod.hand.Some? {
      assert Places(st', st'.prod.hand.value) == One(st'.prod.hand.value < c.NumQueues());
    }
    forall w | 0 <= w < |st'.workers| && st'.workers[w].Running? ensures st'.workers[w].buf < |st'.bufs| {
      InWorkersHas(st'.workers, w);
      assert Places(st', st'.workers[w].buf) == One(st'.workers[w].buf < c.NumQueues());
    }
  }

  lemma {:induction false} OwnedAlong<V>(c: Config<V>, st: State<V>, run: seq<Step>)
    requires WellFormed(c, st) && Owned(c, st) && IsRun(c, st, run)
    ensures var st' := After(c, st, run); WellFormed(c, st') && Owned(c, st')
    decreases |run|
  {
    if run != [] {
      OwnedWellFormedAfter(c, st, run[0]);
      OwnedAlong(c, Apply(c, st, run[0]), run[1..]);
    }
  }

  /** A list of distinct indices below n has at most n entries. */
  lemma Pigeonhole(q: seq<nat>, n: nat)
    requires forall b: nat :: InList(q, b) <= One(b < n)
    ensures |q| <= n
  {
    DistinctCard(q);
    var s := Elems(q);
    forall x | x in s ensures x < n {
      InListHas(q, x);
      assert InList(q, x) <= One(x < n);
    }
    AtMost(s, n);
  }

  lemma {:induction false} InListHas(q: seq<nat>, x: nat)
    ensures x in q <==> InList(q, x) > 0
  {
    if q != [] { InListHas(q[1..], x); }
  }

  ghost function Elems(q: seq<nat>): (s: set<nat>)
    ensures forall x :: x in s <==> x in q
  {
    if q == [] then {} else {q[0]} + Elems(q[1..])
  }

  lemma {:induction false} DistinctCard(q: seq<nat>)
    requires forall b: nat :: InList(q, b) <= 1
    ensures |Elems(q)| == |q|
  {
    if q != [] {
      forall b: nat ensures InList(q[1..], b) <= 1 { assert InList(q, b) <= 1; }
      DistinctCard(q[1..]);
      InListHas(q[1..], q[0]);
      assert InList(q, q[0]) <= 1;
    }
  }

  ghost function TaskBufs(ts: seq<Task>): (q: seq<nat>)
    ensures |q| == |ts|
    ensures forall b: nat :: InList(q, b) == InTasks(ts, b)
  {
    if ts == [] then [] else [ts[0].buf] + TaskBufs(ts[1..])
  }

  /** In every reachable state of any number of workers each buffer index is in exactly one
      place, and the two bounded queues (capacity NUM_QUEUES) never hold more than they can:
      a push to them never waits. */
  lemma OwnershipTheorem<V>(c: Config<V>, st: State<V>, run: seq<Step>)
    requires Init(c, st) && IsRun(c, st, run)
    ensures var st' := After(c, st, run);
      && Owned(c, st') && HandExclusive(st')
      && (forall v, w :: 0 <= v < w < |st'.workers| && st'.workers[v].Running? && st'.workers[w].Running?
            ==> st'.workers[v].buf != st'.workers[w].buf)
      && |st'.empty| <= c.NumQueues() && |st'.tasks| <= c.NumQueues()
  {
    InitOwned(c, st);
    OwnedAlong(c, st, run);
    var st' := After(c, st, run);
    if st'.prod.hand.Some? { HandIsExclusive(c, st'); }
    forall v, w | 0 <= v < w < |st'.workers| && st'.workers[v].Running? && st'.workers[w].Running?
      ensures st'.workers[v].buf != st'.workers[w].buf
    {
      WorkersAreExclusive(c, st', v, w);
    }
    forall b: nat ensures InList(st'.empty, b) <= One(b < c.NumQueues())
      && InTasks(st'.tasks, b) <= One(b < c.NumQueues())
    {
      assert Places(st', b) == One(b < c.NumQueues());
    }
    Pigeonhole(st'.empty, c.NumQueues());
    Pigeonhole(TaskBufs(st'.tasks), c.NumQueues());
  }

  /** Under every interleaving the values a slice's shadow has read are a prefix of the values
      pushed for that slice, and all of them once it has finished. */
  lemma StreamTheorem<V>(c: Config<V>, st: State<V>, run: seq<Step>)
    requires c.Supported() && Init(c, st) && IsRun(c, st, run)
    ensures var st' := After(c, st, run);
      && (forall s :: s in st'.results ==> s < |c.slices| && st'.results[s] == c.slices[s])
      && forall w {:trigger st'.workers[w]} ::
           0 <= w < |st'.workers| && (st'.workers[w].Running? || st'.workers[w].Awaiting?) ==>
             st'.workers[w].slice < |c.slices| && st'.workers[w].log <= c.slices[st'.workers[w].slice]
  {
    InitInv(c, st);
    InvAlong(c, st, run);
    var st' := After(c, st, run);
    forall w | 0 <= w < |st'.workers| && (st'.workers[w].Running? || st'.workers[w].Awaiting?)
      ensures st'.workers[w].slice < |c.slices| && st'.workers[w].log <= c.slices[st'.workers[w].slice]
    {
      assert Consistent(c, st', st'.workers[w]);
    }
  }

  // ------------------------------------------------------------------ progress and shutdown

  /** fpsan_finish has joined every worker, and every slice has been run on all its values. */
  ghost predicate Final<V>(c: Config<V>, st: State<V>) {
    && st.fini
    && (forall w :: 0 <= w < |st.workers| ==> st.workers[w].Exited?)
    && st.results == map s | 0 <= s < |c.slices| :: c.slices[s]
  }

  lemma AllExitedIsFinal<V>(c: Config<V>, st: State<V>)
    requires Inv(c, st) && c.workers >= 1
    requires forall w :: 0 <= w < |st.workers| ==> st.workers[w].Exited?
    ensures Final(c, st)
  {
    assert st.workers[0].Exited?;
    assert Taken(st) == |c.slices|;
    forall s: nat | s < |c.slices| ensures s in st.results {}
  }

  function Act<V>(c: Config<V>, k: Worker<V>, v: nat): Step
    requires k.Running?
  {
    if c.more(k.slice, k.log) then (if k.cq < c.bufSize then Read(v) else Switch(v)) else Done(v)
  }

  /** What a worker waits for on an empty full_list is exactly what the producer is about to push. */
  lemma AwaitingMeansLate<V>(c: Config<V>, st: State<V>, v: nat)
    requires c.Supported() && Inv(c, st) && v < |st.workers| && st.workers[v].Awaiting? && st.full == []
    ensures st.prod.startSlice && st.prod.slice == st.workers[v].slice && st.tasks == []
  {
    var k := st.workers[v];
    assert Consistent(c, st, k);
    assert OnLong(c, k);
    assert Upcoming(c, st.prod) == (k.slice, |k.log|);
    FirstFrom(c, st.prod.slice);
  }

  /** Indices that nobody holds are in the queues. */
  lemma SomewhereQueued<V>(c: Config<V>, st: State<V>)
    requires Owned(c, st) && st.prod.hand.None? && forall w :: 0 <= w < |st.workers| ==> !st.workers[w].Running?
    ensures st.empty != [] || st.tasks != [] || st.full != []
  {
    NoWorkerHolds(st.workers, 0);
    assert Places(st, 0) == One(0 < c.NumQueues());
  }

  /** If every index sits in full_list or the task queue, an idle worker finds a task. */
  lemma IdleMeansTask<V>(c: Config<V>, st: State<V>)
    requires c.Supported() && Inv(c, st)
    requires st.empty == [] && st.prod.hand.None?
    requires forall w :: 0 <= w < |st.workers| ==> !st.workers[w].Running? && !st.workers[w].Awaiting?
    ensures st.tasks != []
  {
    SomewhereQueued(c, st);
    if st.tasks == [] {
      assert st.full != [] && NoneOnLong(c, st.workers);
      assert Tag(st.full[0]) == Untaken(c, st);
      FirstFrom(c, Taken(st));
    }
  }

  /** The program waits for the empty list, in fpsanx_slice_end_interim or in fpsanx_get_buf_addr, and it is empty. */
  ghost predicate Waiting<V>(st: State<V>) {
    st.empty == [] && st.prod.hand.None? && st.prod.mode != Filling && !st.fini
  }

  /** Then a worker can act: the program never waits for workers that wait for the program. */
  lemma WaitingForWorkers<V>(c: Config<V>, st: State<V>) returns (step: Step)
    requires c.Supported() && Inv(c, st) && Waiting(st)
    ensures Enabled(c, st, step) && !IsProducerStep(step)
  {
    if v :| 0 <= v < |st.workers| && st.workers[v].Running? { return Act(c, st.workers[v], v); }
    if v :| 0 <= v < |st.workers| && st.workers[v].Awaiting? {
      if st.full != [] { return Next(v); }
      AwaitingMeansLate(c, st, v);
      SomewhereQueued(c, st);
      assert false;
    }
    IdleMeansTask(c, st);
    assert st.workers[0].Idle?;
    return Take(0);
  }

  /** No reachable state short of the end is stuck: producer and workers are never all waiting. */
  lemma NoDeadlock<V>(c: Config<V>, st: State<V>) returns (step: Step)
    requires c.Supported() && Inv(c, st) && !Final(c, st)
    ensures Enabled(c, st, step) && (Waiting(st) ==> !IsProducerStep(step))
  {
    if Waiting(st) { step := WaitingForWorkers(c, st); return; }
    var p := st.prod;
    if p.mode == Filling {
      return if p.sent >= c.Len(p.slice) then End else if p.qidx < c.bufSize then Push else Interim;
    }
    if !st.fini {
      if p.mode == Blocked { return Refill; }
      return if p.hand.None? then Enter else if p.slice < |c.slices| then Begin else Finish;
    }
    if v :| 0 <= v < |st.workers| && st.workers[v].Running? { return Act(c, st.workers[v], v); }
    if v :| 0 <= v < |st.workers| && st.workers[v].Awaiting? {
      if st.full != [] { return Next(v); }
      AwaitingMeansLate(c, st, v);
      assert false;
    }
    if v :| 0 <= v < |st.workers| && st.workers[v].Idle? { return if st.tasks != [] then Take(v) else Exit(v); }
    AllExitedIsFinal(c, st);
    assert false;
    return Finish;
  }

  // ---- every run is finite

  ghost function Sum(f: seq<nat>): nat { if f == [] then 0 else f[0] + Sum(f[1..]) }

  lemma {:induction false} SumUpdate(f: seq<nat>, i: nat, x: nat)
    requires i < |f|
    ensures Sum(f[i := x]) + f[i] == Sum(f) + x
  {
    if i == 0 {
      assert f[i := x][1..] == f[1..];
    } else {
      assert f[i := x][1..] == f[1..][i - 1 := x];
      SumUpdate(f[1..], i - 1, x);
    }
  }

  /** Work still to be done for the slices from s on, at `per` per slice and 4 per value. */
  ghost function Ahead<V>(c: Config<V>, s: int, per: nat): nat
    decreases |c.slices| - s
  {
    if s < 0 || s >= |c.slices| then 0 else 4 * |c.slices[s]| + per + Ahead(c, s + 1, per)
  }

  ghost function ProducerWork<V>(c: Config<V>, p: Producer): nat {
    var left := c.Len(p.slice) - p.sent;
    match p.mode
    case Between => Ahead(c, p.slice, 3) + One(p.hand.None?)
    case Filling => Ahead(c, p.slice + 1, 3) + (if left >= 0 then 4 * left else 0)
      + (if p.qidx >= c.bufSize then 4 else 2)
    case Blocked => Ahead(c, p.slice + 1, 3) + (if left >= 0 then 4 * left else 0) + 3
  }

  ghost function WorkerWork<V>(c: Config<V>, k: Worker<V>): nat {
    match k
    case Idle(_) => 1
    case Exited => 0
    case Running(s, _, cq, log) => (if |log| <= c.Len(s) then 4 * (c.Len(s) - |log|) else 0)
      + (if cq >= c.bufSize then 4 else 2)
    case Awaiting(s, _, log) => (if |log| <= c.Len(s) then 4 * (c.Len(s) - |log|) else 0) + 3
  }

  ghost function WorkersWork<V>(c: Config<V>, ws: seq<Worker<V>>): seq<nat> {
    seq(|ws|, w requires 0 <= w < |ws| => WorkerWork(c, ws[w]))
  }

  /** An upper bound on the number of steps that can still happen. */
  ghost function Measure<V>(c: Config<V>, st: State<V>): nat {
    ProducerWork(c, st.prod) + One(!st.fini) + Ahead(c, Taken(st), 2) + Sum(WorkersWork(c, st.workers))
  }

  lemma ProducerMeasure<V>(c: Config<V>, st: State<V>, step: Step)
    requires c.bufSize >= 1 && WellFormed(c, st) && ProducerInv(c, st)
    requires Enabled(c, st, step) && IsProducerStep(step)
    ensures Measure(c, Apply(c, st, step)) < Measure(c, st)
  {
    assert Taken(Apply(c, st, step)) == Taken(st);
  }

  lemma WorkerMeasure<V>(c: Config<V>, st: State<V>, step: Step)
    requires c.bufSize >= 1 && c.Faithful() && WellFormed(c, st) && TasksInv(c, st) && WorkersInv(c, st)
    requires Enabled(c, st, step) && !IsProducerStep(step)
    ensures Measure(c, Apply(c, st, step)) < Measure(c, st)
  {
    if step.Take? { TakeMeasure(c, st, step.w); } else { OtherMeasure(c, st, step); }
  }

  lemma TakeMeasure<V>(c: Config<V>, st: State<V>, w: nat)
    requires c.bufSize >= 1 && WellFormed(c, st) && TasksInv(c, st) && WorkersInv(c, st) && Enabled(c, st, Take(w))
    ensures Measure(c, Apply(c, st, Take(w))) < Measure(c, st)
  {
    var st' := Apply(c, st, Take(w));
    assert Consistent(c, st, st.workers[w]);
    assert st.tasks[0].slice == Taken(st) < |c.slices|;
    hide WellFormed, TasksInv, WorkersInv, Consistent, ProducerWork, Sum;
    WorkUpdate(c, st.workers, w, st'.workers[w]);
    assert Ahead(c, Taken(st), 2) == 4 * |c.slices[Taken(st)]| + 2 + Ahead(c, Taken(st'), 2);
  }

  lemma OtherMeasure<V>(c: Config<V>, st: State<V>, step: Step)
    requires c.bufSize >= 1 && c.Faithful() && WellFormed(c, st) && WorkersInv(c, st)
    requires Enabled(c, st, step) && !IsProducerStep(step) && !step.Take?
    ensures Measure(c, Apply(c, st, step)) < Measure(c, st)
  {
    var st', w := Apply(c, st, step), step.w;
    assert Consistent(c, st, st.workers[w]);
    if st.workers[w].Running? { MoreIffShort(c, st, st.workers[w]); }
    hide WellFormed, WorkersInv, Consistent, Config.Faithful, ProducerWork, Ahead, Sum;
    WorkUpdate(c, st.workers, w, st'.workers[w]);
    assert WorkerWork(c, st'.workers[w]) < WorkerWork(c, st.workers[w]);
    assert Taken(st') == Taken(st);
  }

  lemma WorkUpdate<V>(c: Config<V>, ws: seq<Worker<V>>, w: nat, k: Worker<V>)
    requires w < |ws|
    ensures Sum(WorkersWork(c, ws[w := k])) + WorkerWork(c, ws[w]) == Sum(WorkersWork(c, ws)) + WorkerWork(c, k)
  {
    SumUpdate(WorkersWork(c, ws), w, WorkerWork(c, k));
    assert WorkersWork(c, ws[w := k]) == WorkersWork(c, ws)[w := WorkerWork(c, k)];
  }

  lemma {:induction false} RunsAreBounded<V>(c: Config<V>, st: State<V>, run: seq<Step>)
    requires c.Supported() && Inv(c, st) && IsRun(c, st, run)
    ensures |run| + Measure(c, After(c, st, run)) <= Measure(c, st)
    decreases |run|
  {
    if run != [] {
      InvAfter(c, st, run[0]);
      if IsProducerStep(run[0]) { ProducerMeasure(c, st, run[0]); } else { WorkerMeasure(c, st, run[0]); }
      RunsAreBounded(c, Apply(c, st, run[0]), run[1..]);
    }
  }

  /** Progress and shutdown: a run cannot go on forever; where it can go no further every pushed task has been run
      on exactly its slice's values and every worker has been joined; and as long as the program waits for an
      empty list to be filled, also after the last slice, a worker can act. */
  lemma ShutdownTheorem<V>(c: Config<V>, st: State<V>, run: seq<Step>)
    requires c.Supported() && Init(c, st) && IsRun(c, st, run)
    ensures |run| <= Measure(c, st)
    ensures (forall step :: !Enabled(c, After(c, st, run), step)) ==> Final(c, After(c, st, run))
    ensures Waiting(After(c, st, run)) ==> exists step :: Enabled(c, After(c, st, run), step) && !IsProducerStep(step)
  {
    InitInv(c, st);
    InvAlong(c, st, run);
    RunsAreBounded(c, st, run);
    var st' := After(c, st, run);
    if !Final(c, st') {
      var step := NoDeadlock(c, st');
      assert Enabled(c, st', step);
    }
  }
}
