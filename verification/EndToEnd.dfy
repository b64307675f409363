module EndToEnd {
  // The decoupled shadow execution as a whole: the transformation of module Shadow on top of the
  // buffers and threads of module Protocol.

  import opened Basics
  import opened Shadow
  import Protocol

  /** The configuration in which the program runs the given slices one after the other. */
  ghost function SliceConfig(m: Machine, P: Program, slices: seq<SliceRun>, workers: nat,
                             bufSize: nat): Protocol.Config<real>
  {
    Protocol.Config(workers, bufSize,
      seq(|slices|, i requires 0 <= i < |slices| => Stream(m, P, slices[i])),
      (s: nat, log: seq<real>) => s < |slices| && Asks(m, P, slices[s], log))
  }

  /** The slice pushes more than fits in one buffer. */
  ghost predicate Overflows(m: Machine, P: Program, sl: SliceRun, bufSize: nat) { |Stream(m, P, sl)| > bufSize }

  lemma SlicesAreFaithful(m: Machine, P: Program, slices: seq<SliceRun>, workers: nat, bufSize: nat)
    requires forall i :: 0 <= i < |slices| ==> ValidSlice(m, P, slices[i])
    ensures SliceConfig(m, P, slices, workers, bufSize).Faithful()
  {
    var c := SliceConfig(m, P, slices, workers, bufSize);
    forall s, i | 0 <= s < |c.slices| && 0 <= i <= |c.slices[s]|
      ensures c.more(s, c.slices[s][..i]) <==> i < |c.slices[s]|
    {
      AsksExactly(m, P, slices[s], i);
    }
  }

  /** Shadow execution on worker threads computes what lockstep shadow execution would: with one
      worker, or with buffers that at most one slice overflows, every run of the protocol ends after boundedly
      many steps, and then the shadow of each slice, run on the values its worker read from the
      buffers, has returned with exactly the metadata of the lockstep run. */
  lemma DecoupledExecutionTheorem(m: Machine, P: Program, slices: seq<SliceRun>, workers: nat, bufSize: nat,
                                  st: Protocol.State<real>, run: seq<Protocol.Step>)
    requires forall i :: 0 <= i < |slices| ==> ValidSlice(m, P, slices[i])
    requires workers >= 1 && bufSize >= 1
    requires workers == 1
      || forall i, j ::
      0 <= i < j < |slices| ==> !Overflows(m, P, slices[i], bufSize) || !Overflows(m, P, slices[j], bufSize)
    requires Protocol.Init(SliceConfig(m, P, slices, workers, bufSize), st)
    requires Protocol.IsRun(SliceConfig(m, P, slices, workers, bufSize), st, run)
    ensures var c := SliceConfig(m, P, slices, workers, bufSize);
      var end := Protocol.After(c, st, run);
      && |run| <= Protocol.Measure(c, st)
      && ((forall step :: !Protocol.Enabled(c, end, step)) ==>
           forall i :: 0 <= i < |slices| ==>
             && i in end.results
             && CloneRun(m, P, slices[i], end.results[i], slices[i].steps) == Some((LockstepEnd(m, P, slices[i]), [])))
  {
    hide Protocol.IsRun, Protocol.After, Protocol.Init, Protocol.Enabled, Protocol.Measure, ValidSlice;
    var c := SliceConfig(m, P, slices, workers, bufSize);
    SlicesAreFaithful(m, P, slices, workers, bufSize);
    Protocol.ShutdownTheorem(c, st, run);
    var end := Protocol.After(c, st, run);
    if forall step :: !Protocol.Enabled(c, end, step) {
      forall i | 0 <= i < |slices|
        ensures i in end.results
             && CloneRun(m, P, slices[i], end.results[i], slices[i].steps) == Some((LockstepEnd(m, P, slices[i]), []))
      {
        assert end.results[i] == c.slices[i];
        SliceDecoupled(m, P, slices[i]);
      }
    }
  }
}
