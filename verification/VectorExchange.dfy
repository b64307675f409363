/** hypre_IJVectorAssembleOffProcValsPar with a global partition: every rank sorts its stash by owner, tells
    everybody how much it sends to whom, and adds what it receives to its part. */
module VectorExchange {
  import opened Basics
  import opened Blocks
  import opened ColumnMap
  import opened Partitions
  import opened Parts
  import opened Ranks
  import opened VectorParts

  /** The first n stashed contributions that belong to rank p, in order. */
  function ForRank(cs: seq<Contribution>, n: nat, part: seq<int>, p: int): seq<Contribution>
    requires n <= |cs|
  {
    if n == 0 then []
    else ForRank(cs, n - 1, part, p)
         + (if 0 <= p < |part| - 1 && part[p] <= cs[n - 1].index < part[p + 1] then [cs[n - 1]] else [])
  }

  /** All indices belong to somebody. */
  ghost predicate InRange(cs: seq<Contribution>, part: seq<int>) {
    |part| >= 1 && forall k :: 0 <= k < |cs| ==> part[0] <= cs[k].index < part[|part| - 1]
  }

  /** Row n goes to its owner and nobody else. */
  lemma ForRankNext(cs: seq<Contribution>, n: nat, part: seq<int>, p: nat, q: nat)
    requires IsPartition(part) && n < |cs| && p < |part| - 1 && q < |part| - 1 && part[p] <= cs[n].index < part[p + 1]
    ensures ForRank(cs, n + 1, part, q) == if q == p then ForRank(cs, n, part, q) + [cs[n]] else ForRank(cs, n, part, q)
  {
    assert p < q ==> part[p + 1] <= part[q];
    assert q < p ==> part[q + 1] <= part[p];
  }

  lemma {:induction false} ForRankGrows(cs: seq<Contribution>, n: nat, part: seq<int>, p: int)
    requires n <= |cs|
    ensures |ForRank(cs, n, part, p)| <= |ForRank(cs, |cs|, part, p)|
    decreases |cs| - n
  {
    if n < |cs| { ForRankGrows(cs, n + 1, part, p); }
  }

  /** A rank's share holds all there is for each of its components. */
  lemma {:induction false} ForRankSum(cs: seq<Contribution>, n: nat, part: seq<int>, p: nat, g: int)
    requires n <= |cs| && p < |part| - 1 && part[p] <= g < part[p + 1]
    ensures SumAt(ForRank(cs, n, part, p), g) == SumTo(cs, n, g)
  {
    if n > 0 {
      ForRankSum(cs, n - 1, part, p, g);
      var before, c := ForRank(cs, n - 1, part, p), cs[n - 1];
      if part[p] <= c.index < part[p + 1] { SumAtSnoc(before, c, g); } else { assert before + [] == before; }
    }
  }

  lemma {:induction false} ForRankOwned(cs: seq<Contribution>, n: nat, part: seq<int>, p: nat)
    requires n <= |cs| && p < |part| - 1
    ensures forall k :: 0 <= k < |ForRank(cs, n, part, p)| ==> part[p] <= ForRank(cs, n, part, p)[k].index < part[p + 1]
  {
    if n > 0 { ForRankOwned(cs, n - 1, part, p); }
  }

  /** How much goes to each rank. */
  method CountOwners(cs: seq<Contribution>, part: seq<int>) returns (proc_id_mem: seq<int>, info: seq<nat>)
    requires IsPartition(part) && InRange(cs, part)
    ensures |proc_id_mem| == |cs| && forall i :: 0 <= i < |cs| ==> OwnerIs(part, proc_id_mem[i], cs[i].index)
    ensures CountsFor(cs, part, info)
  {
    proc_id_mem, info := [], seq(|part| - 1, _ => 0);
    for i := 0 to |cs|
      invariant |proc_id_mem| == i && forall j :: 0 <= j < i ==> OwnerIs(part, proc_id_mem[j], cs[j].index)
      invariant |info| == |part| - 1 && forall p :: 0 <= p < |info| ==> info[p] == |ForRank(cs, i, part, p)|
    {
      var proc_id := FindProc(part, cs[i].index);
      OneMoreFor(cs, i, part, proc_id, info, info[proc_id := info[proc_id] + 1]);
      proc_id_mem, info := proc_id_mem + [proc_id], info[proc_id := info[proc_id] + 1];
    }
  }

  lemma OneMoreFor(cs: seq<Contribution>, i: nat, part: seq<int>, p: nat, info: seq<nat>, info': seq<nat>)
    requires IsPartition(part) && i < |cs| && OwnerIs(part, p, cs[i].index)
    requires |info| == |part| - 1 && forall q :: 0 <= q < |info| ==> info[q] == |ForRank(cs, i, part, q)|
    requires info' == info[p := info[p] + 1]
    ensures forall q :: 0 <= q < |info'| ==> info'[q] == |ForRank(cs, i + 1, part, q)|
  {
    forall q | 0 <= q < |info|
      ensures |ForRank(cs, i + 1, part, q)| == |ForRank(cs, i, part, q)| + (if q == p then 1 else 0)
    {
      ForRankNext(cs, i, part, p, q);
    }
  }

  ghost predicate CountsFor(cs: seq<Contribution>, part: seq<int>, info: seq<nat>) {
    |info| == |part| - 1 && forall p :: 0 <= p < |info| ==> info[p] == |ForRank(cs, |cs|, part, p)|
  }

  ghost predicate OwnerIs(part: seq<int>, p: int, g: int) { 0 <= p < |part| - 1 && part[p] <= g < part[p + 1] }

  /** The ranks that get something, and where their contributions start in the send buffer. */
  ghost predicate SendList(info: seq<nat>, procs: seq<int>, bases: seq<nat>, limits: seq<nat>, total: nat) {
    && Increasing(procs) && |procs| == |bases| && Chained(bases, limits, 0, total)
    && (forall k :: 0 <= k < |procs| ==> 0 <= procs[k] < |info| && limits[k] == bases[k] + info[procs[k]])
    && (forall p {:trigger p in procs} :: 0 <= p < |info| && info[p] != 0 ==> p in procs)
  }

  method SendProcs(info: seq<nat>)
    returns (send_procs: seq<int>, starts: seq<int>, ghost bases: seq<nat>, ghost limits: seq<nat>)
    ensures |starts| == |send_procs| + 1 && starts[|send_procs|] >= 0
      && SendList(info, send_procs, bases, limits, starts[|send_procs|])
    ensures forall k :: 0 <= k < |bases| ==> starts[k] == bases[k]
  {
    send_procs, starts, bases, limits := [], [0], [], [];
    for i := 0 to |info|
      invariant |starts| == |send_procs| + 1 == |bases| + 1 && starts[|send_procs|] >= 0
        && forall k :: 0 <= k < |bases| ==> starts[k] == bases[k]
      invariant SendListUpTo(info, i, send_procs, bases, limits, starts[|send_procs|])
    {
      if info[i] != 0 {
        var end := starts[|send_procs|] + info[i];
        SendListNext(info, i, send_procs, bases, limits, starts[|send_procs|]);
        bases, limits := bases + [starts[|send_procs|]], limits + [end];
        send_procs, starts := send_procs + [i], starts + [end];
      }
    }
  }

  ghost predicate SendListUpTo(info: seq<nat>, i: nat, procs: seq<int>, bases: seq<nat>, limits: seq<nat>, total: nat) {
    && i <= |info| && Increasing(procs) && |procs| == |bases| == |limits| && Chained(bases, limits, 0, total)
    && (forall k :: 0 <= k < |procs| ==> 0 <= procs[k] < i && limits[k] == bases[k] + info[procs[k]])
    && (forall p {:trigger p in procs} :: 0 <= p < i && info[p] != 0 ==> p in procs)
  }

  lemma SendListNext(info: seq<nat>, i: nat, procs: seq<int>, bases: seq<nat>, limits: seq<nat>, total: nat)
    requires i < |info| && SendListUpTo(info, i, procs, bases, limits, total)
    ensures SendListUpTo(info, i + 1, procs + [i], bases + [total], limits + [total + info[i]], total + info[i])
  {
    ChainedSnoc(bases, limits, 0, total, total + info[i]);
  }

  // ---- sorting the stash by owner

  /** For each receiver, those of the first i contributions that go to it. */
  ghost function PartsFor(cs: seq<Contribution>, i: nat, part: seq<int>, procs: seq<int>): (r: seq<seq<Contribution>>)
    requires i <= |cs|
    ensures |r| == |procs| && forall k :: 0 <= k < |r| ==> r[k] == ForRank(cs, i, part, procs[k])
  {
    seq(|procs|, k requires 0 <= k < |procs| => ForRank(cs, i, part, procs[k]))
  }

  /** Contribution i goes to its owner's part and to no other. */
  lemma PartsNext(cs: seq<Contribution>, i: nat, part: seq<int>, info: seq<nat>, procs: seq<int>, bases: seq<nat>,
                  limits: seq<nat>, total: nat, k: nat, parts: seq<seq<Contribution>>)
    requires IsPartition(part) && i < |cs| && k < |procs| && OwnerIs(part, procs[k], cs[i].index)
    requires CountsFor(cs, part, info) && SendList(info, procs, bases, limits, total)
    requires parts == PartsFor(cs, i, part, procs)
    ensures PartsFor(cs, i + 1, part, procs) == parts[k := parts[k] + [cs[i]]]
  {
    var after := PartsFor(cs, i + 1, part, procs);
    forall j | 0 <= j < |procs| ensures after[j] == if j == k then parts[j] + [cs[i]] else parts[j] {
      ForRankNext(cs, i, part, procs[k], procs[j]);
    }
  }

  /** There is room for every contribution ... */
  lemma PartsFit(cs: seq<Contribution>, i: nat, part: seq<int>, info: seq<nat>, procs: seq<int>, bases: seq<nat>,
                 limits: seq<nat>, total: nat)
    requires CountsFor(cs, part, info) && SendList(info, procs, bases, limits, total) && i <= |cs|
    ensures Fit(PartsFor(cs, i, part, procs), bases, limits)
  {
    forall k | 0 <= k < |procs| ensures bases[k] + |ForRank(cs, i, part, procs[k])| <= limits[k] {
      ForRankGrows(cs, i, part, procs[k]);
    }
  }

  /** ... and in the end none is left. */
  lemma PartsFull(cs: seq<Contribution>, part: seq<int>, info: seq<nat>, procs: seq<int>, bases: seq<nat>,
                  limits: seq<nat>, total: nat)
    requires CountsFor(cs, part, info) && SendList(info, procs, bases, limits, total)
    ensures Full(PartsFor(cs, |cs|, part, procs), bases, limits)
  {}

  /** What a rank sends: to whom, how much to each rank, and all contributions sorted by receiver. */
  datatype Sends = Sends(procs: seq<int>, info: seq<nat>, buf: seq<Contribution>, starts: seq<int>)

  /** The stash cs is sorted by owner in the send buffer. */
  ghost predicate Sorts(sends: Sends, cs: seq<Contribution>, part: seq<int>) {
    && CountsFor(cs, part, sends.info) && |sends.starts| == |sends.procs| + 1
    && Increasing(sends.procs)
    && (forall k :: 0 <= k < |sends.procs| ==> 0 <= sends.procs[k] < |sends.info|)
    && (forall p {:trigger p in sends.procs} :: 0 <= p < |sends.info| && sends.info[p] != 0 ==> p in sends.procs)
    && Slices(sends.buf, sends.starts, PartsFor(cs, |cs|, part, sends.procs), |sends.procs|)
  }

  lemma OwnerListed(cs: seq<Contribution>, part: seq<int>, info: seq<nat>, procs: seq<int>, bases: seq<nat>,
                    limits: seq<nat>, total: nat, i: nat, p: nat)
    requires IsPartition(part) && CountsFor(cs, part, info) && SendList(info, procs, bases, limits, total)
    requires i < |cs| && OwnerIs(part, p, cs[i].index)
    ensures p in procs && Increasing(procs)
  {
    ForRankNext(cs, i, part, p, p);
    ForRankGrows(cs, i + 1, part, p);
  }

  lemma SendListChained(info: seq<nat>, procs: seq<int>, bases: seq<nat>, limits: seq<nat>, total: nat)
    requires SendList(info, procs, bases, limits, total)
    ensures Chained(bases, limits, 0, total)
  {}

  lemma FileStep(buf: seq<Contribution>, starts: seq<int>, cs: seq<Contribution>, part: seq<int>, info: seq<nat>,
                 procs: seq<int>, bases: seq<nat>, limits: seq<nat>, i: nat, k: nat, at: int)
    requires IsPartition(part) && CountsFor(cs, part, info) && SendList(info, procs, bases, limits, |buf|)
    requires i < |cs| && k < |procs| && OwnerIs(part, procs[k], cs[i].index) && |starts| == |procs| + 1
      && at == starts[k]
    requires |bases| == |procs| && Filling(buf, starts, bases, PartsFor(cs, i, part, procs), |procs|)
    ensures 0 <= at && at + |[cs[i]]| <= |buf|
    ensures Filling(Overwrite(buf, at, [cs[i]]), starts[k := at + 1], bases, PartsFor(cs, i + 1, part, procs), |procs|)
  {
    hide *;
    SendListChained(info, procs, bases, limits, |buf|);
    PartsNext(cs, i, part, info, procs, bases, limits, |buf|, k, PartsFor(cs, i, part, procs));
    PartsFit(cs, i, part, info, procs, bases, limits, |buf|);
    PartsFit(cs, i + 1, part, info, procs, bases, limits, |buf|);
    FillPart(buf, starts, bases, limits, PartsFor(cs, i, part, procs), k, [cs[i]], at,
      PartsFor(cs, i + 1, part, procs));
  }

  /** One contribution goes where its owner's next one belongs. */
  method FileOne(buf: array<Contribution>, starts: seq<int>, cs: seq<Contribution>, ghost part: seq<int>,
                 ghost info: seq<nat>, ghost procs: seq<int>, ghost bases: seq<nat>, ghost limits: seq<nat>, i: nat,
                 indx: nat)
    returns (starts': seq<int>)
    requires IsPartition(part) && CountsFor(cs, part, info) && SendList(info, procs, bases, limits, buf.Length)
    requires i < |cs| && indx < |procs| && OwnerIs(part, procs[indx], cs[i].index) && |starts| == |procs| + 1
    requires |bases| == |procs| && Filling(buf[..], starts, bases, PartsFor(cs, i, part, procs), |procs|)
    modifies buf
    ensures |starts'| == |starts| && Filling(buf[..], starts', bases, PartsFor(cs, i + 1, part, procs), |procs|)
  {
    hide CountsFor, SendList, Filling;
    ghost var s := buf[..];
    FileStep(s, starts, cs, part, info, procs, bases, limits, i, indx, starts[indx]);
    buf[starts[indx]] := cs[i];
    assert buf[..] == Overwrite(s, starts[indx], [cs[i]]);
    starts' := starts[indx := starts[indx] + 1];
  }

  method FileAll(buf: array<Contribution>, first: seq<int>, cs: seq<Contribution>, ghost part: seq<int>,
                 ghost info: seq<nat>, procs: seq<int>, ghost bases: seq<nat>, ghost limits: seq<nat>,
                 proc_id_mem: seq<int>)
    returns (ends: seq<int>)
    requires IsPartition(part) && CountsFor(cs, part, info) && SendList(info, procs, bases, limits, buf.Length)
    requires |proc_id_mem| == |cs| && forall i :: 0 <= i < |cs| ==> OwnerIs(part, proc_id_mem[i], cs[i].index)
    requires |bases| == |procs| && |first| == |procs| + 1
      && Filling(buf[..], first, bases, PartsFor(cs, 0, part, procs), |procs|)
    modifies buf
    ensures |ends| == |first| && Filling(buf[..], ends, bases, PartsFor(cs, |cs|, part, procs), |procs|)
  {
    hide CountsFor, SendList, Filling;
    ends := first;
    for i := 0 to |cs|
      invariant |ends| == |first| && Filling(buf[..], ends, bases, PartsFor(cs, i, part, procs), |procs|)
    {
      OwnerListed(cs, part, info, procs, bases, limits, buf.Length, i, proc_id_mem[i]);
      var indx := BinarySearch(procs, proc_id_mem[i]);
      ends := FileOne(buf, ends, cs, part, info, procs, bases, limits, i, indx);
    }
  }

  /** The sending half of the exchange. */
  method SortStash(cs: seq<Contribution>, part: seq<int>) returns (sends: Sends)
    requires IsPartition(part) && InRange(cs, part)
    ensures Sorts(sends, cs, part)
  {
    var proc_id_mem, info := CountOwners(cs, part);
    var procs, first, bases, limits := SendProcs(info);
    var buf := new Contribution[first[|procs|]](_ => Contribution(0, 0.0));
    FillingStart(buf[..], first, bases, limits, PartsFor(cs, 0, part, procs), |procs|);
    var ends := FileAll(buf, first, cs, part, info, procs, bases, limits, proc_id_mem);
    var starts := ShiftStarts(ends, 0);
    PartsFull(cs, part, info, procs, bases, limits, buf.Length);
    FullSlices(buf[..], ends, starts, bases, limits, PartsFor(cs, |cs|, part, procs), |procs|);
    sends := Sends(procs, info, buf[..], starts);
  }

  // ------------------------------------------------------------------ receiving

  /** What a rank tells everybody: it sends `count` contributions to `proc`. */
  datatype Notice = Notice(proc: int, count: nat)

  /** The notices a rank contributes to the gathered buffer. */
  function Notices(sends: Sends, n: nat): seq<Notice>
    requires n <= |sends.procs|
  {
    if n == 0 then []
    else
      var p := sends.procs[n - 1];
      Notices(sends, n - 1) + [Notice(p, if 0 <= p < |sends.info| then sends.info[p] else 0)]
  }

  lemma {:induction false} NoticesAre(sends: Sends, n: nat)
    requires n <= |sends.procs|
    ensures |Notices(sends, n)| == n
    ensures forall k :: 0 <= k < n ==> Notices(sends, n)[k].proc == sends.procs[k]
    ensures forall k ::
      0 <= k < n && 0 <= sends.procs[k] < |sends.info| ==> Notices(sends, n)[k].count == sends.info[sends.procs[k]]
  {
    if n > 0 { NoticesAre(sends, n - 1); }
  }

  /** What every rank has for rank me. */
  ghost function Shares(stashes: seq<seq<Contribution>>, part: seq<int>, me: int): (r: seq<seq<Contribution>>)
    ensures |r| == |stashes| && forall s :: 0 <= s < |stashes| ==> r[s] == ForRank(stashes[s], |stashes[s]|, part, me)
  {
    seq(|stashes|, s requires 0 <= s < |stashes| => ForRank(stashes[s], |stashes[s]|, part, me))
  }

  /** Where the parts of the first n listed senders start in the receive buffer. */
  ghost predicate RecvStarts(ranks: seq<int>, starts: seq<int>, shares: seq<seq<Contribution>>, n: nat)
    requires n <= |ranks| && n < |starts|
  {
    if n == 0 then starts[0] == 0
    else RecvStarts(ranks, starts, shares, n - 1) && starts[n] == starts[n - 1] + |Share(shares, ranks[n - 1])|
  }

  lemma {:induction false} RecvStartsSame(ranks: seq<int>, starts: seq<int>, ranks': seq<int>, starts': seq<int>,
                                          shares: seq<seq<Contribution>>, n: nat)
    requires n <= |ranks| && n < |starts| && n <= |ranks'| && n < |starts'| && RecvStarts(ranks, starts, shares, n)
    requires forall k :: 0 <= k < n ==> ranks[k] == ranks'[k]
    requires forall k :: 0 <= k <= n ==> starts[k] == starts'[k]
    ensures RecvStarts(ranks', starts', shares, n)
  {
    if n > 0 { RecvStartsSame(ranks, starts, ranks', starts', shares, n - 1); }
  }

  /** The senders among the first i ranks. */
  ghost predicate Senders(ranks: seq<int>, starts: seq<int>, sends: seq<Sends>, shares: seq<seq<Contribution>>, me: int,
                          i: nat) {
    && i <= |shares| == |sends| && |starts| == |ranks| + 1 && Increasing(ranks)
    && (forall k :: 0 <= k < |ranks| ==> 0 <= ranks[k] < i && me in sends[ranks[k]].procs)
    && (forall s {:trigger s in ranks} :: 0 <= s < i && shares[s] != [] ==> s in ranks)
    && RecvStarts(ranks, starts, shares, |ranks|)
  }

  lemma SendersSkip(ranks: seq<int>, starts: seq<int>, sends: seq<Sends>, shares: seq<seq<Contribution>>, me: int,
                    i: nat)
    requires Senders(ranks, starts, sends, shares, me, i) && i < |shares| && shares[i] == []
    ensures Senders(ranks, starts, sends, shares, me, i + 1)
  {}

  lemma SendersNext(ranks: seq<int>, starts: seq<int>, sends: seq<Sends>, shares: seq<seq<Contribution>>, me: int,
                    i: nat, end: int)
    requires Senders(ranks, starts, sends, shares, me, i) && i < |shares| && me in sends[i].procs
    requires end == starts[|ranks|] + |shares[i]|
    ensures Senders(ranks + [i], starts + [end], sends, shares, me, i + 1)
  {
    RecvStartsSame(ranks, starts, ranks + [i], starts + [end], shares, |ranks|);
  }

  /** The notices of one rank: is there one for me, and for how much. */
  method FindNotice(ns: seq<Notice>, me: int) returns (k: nat)
    ensures k <= |ns| && (k < |ns| ==> ns[k].proc == me) && forall j :: 0 <= j < k ==> ns[j].proc != me
  {
    k := 0;
    while k < |ns| && ns[k].proc != me
      invariant k <= |ns| && forall j :: 0 <= j < k ==> ns[j].proc != me
    {
      k := k + 1;
    }
  }

  /** What a rank's notice for rank me says: as much as its stash has for me. */
  lemma NoticeIs(sends: Sends, cs: seq<Contribution>, part: seq<int>, me: int, ns: seq<Notice>, k: nat)
    requires Sorts(sends, cs, part) && 0 <= me < |part| - 1 && ns == Notices(sends, |sends.procs|)
    requires k <= |ns| && (k < |ns| ==> ns[k].proc == me) && forall j :: 0 <= j < k ==> ns[j].proc != me
    ensures if k < |ns|
      then me in sends.procs && ns[k].count == |ForRank(cs, |cs|, part, me)| else ForRank(cs, |cs|, part, me) == []
  {
    NoticesAre(sends, |sends.procs|);
    if k < |ns| {
      assert sends.procs[k] == me;
    } else {
      assert me !in sends.procs;
      assert sends.info[me] == 0;
    }
  }

  /** Every rank has sorted its stash. */
  ghost predicate AllSort(sends: seq<Sends>, stashes: seq<seq<Contribution>>, part: seq<int>) {
    |sends| == |stashes| && forall s :: 0 <= s < |sends| ==> Sorts(sends[s], stashes[s], part)
  }

  /** From everybody's notices: who sends to rank me, and where it goes in the receive buffer. */
  method RecvList(me: int, sends: seq<Sends>, ghost stashes: seq<seq<Contribution>>, ghost part: seq<int>)
    returns (ranks: seq<int>, starts: seq<int>)
    requires AllSort(sends, stashes, part) && 0 <= me < |part| - 1
    ensures Senders(ranks, starts, sends, Shares(stashes, part, me), me, |sends|)
  {
    ghost var shares := Shares(stashes, part, me);
    ranks, starts := [], [0];
    for i := 0 to |sends|
      invariant Senders(ranks, starts, sends, shares, me, i)
    {
      var ns := Notices(sends[i], |sends[i].procs|);
      var k := FindNotice(ns, me);
      NoticeIs(sends[i], stashes[i], part, me, ns, k);
      if k < |ns| {
        var end := starts[|ranks|] + ns[k].count;
        SendersNext(ranks, starts, sends, shares, me, i, end);
        ranks, starts := ranks + [i], starts + [end];
      } else {
        SendersSkip(ranks, starts, sends, shares, me, i);
      }
    }
  }

  /** The message rank s posts for rank me. */
  method Posted(sends: Sends, me: int, ghost cs: seq<Contribution>, ghost part: seq<int>)
    returns (msg: seq<Contribution>)
    requires Sorts(sends, cs, part) && me in sends.procs
    ensures msg == ForRank(cs, |cs|, part, me)
  {
    var j := BinarySearch(sends.procs, me);
    SliceAt(sends.buf, sends.starts, PartsFor(cs, |cs|, part, sends.procs), |sends.procs|, j);
    msg := sends.buf[sends.starts[j]..sends.starts[j + 1]];
  }

  method MessageOf(me: int, sends: seq<Sends>, s: int, ghost stashes: seq<seq<Contribution>>, ghost part: seq<int>,
                   ghost shares: seq<seq<Contribution>>)
    returns (msg: seq<Contribution>)
    requires AllSort(sends, stashes, part) && 0 <= s < |sends| && me in sends[s].procs
      && shares == Shares(stashes, part, me)
    ensures msg == Share(shares, s)
  {
    msg := Posted(sends[s], me, stashes[s], part);
  }

  /** The posted receives are matched by the posted sends: each message has the length the receiver computed. */
  method Transfer(me: int, sends: seq<Sends>, ranks: seq<int>, starts: seq<int>, ghost stashes: seq<seq<Contribution>>,
                  ghost part: seq<int>, ghost shares: seq<seq<Contribution>>)
    returns (recv: seq<Contribution>)
    requires AllSort(sends, stashes, part) && shares == Shares(stashes, part, me)
    requires Senders(ranks, starts, sends, shares, me, |sends|)
    ensures recv == Listed(ranks, shares, |ranks|) && |starts| == |ranks| + 1 && |recv| == starts[|ranks|]
  {
    hide *;
    ListedNone(ranks, shares);
    ListedLength(ranks, starts, sends, shares, me);
    recv := [];
    for k := 0 to |ranks|
      invariant recv == Listed(ranks, shares, k)
    {
      SenderAt(ranks, starts, sends, shares, me, k);
      var msg := MessageOf(me, sends, ranks[k], stashes, part, shares);
      assert |msg| == starts[k + 1] - starts[k];
      ListedNext(ranks, shares, k);
      recv := recv + msg;
    }
  }

  lemma SenderAt(ranks: seq<int>, starts: seq<int>, sends: seq<Sends>, shares: seq<seq<Contribution>>, me: int, k: nat)
    requires Senders(ranks, starts, sends, shares, me, |sends|) && k < |ranks|
    ensures 0 <= ranks[k] < |sends| && me in sends[ranks[k]].procs
    ensures k + 1 < |starts| && |Share(shares, ranks[k])| == starts[k + 1] - starts[k]
  {
    RecvStartsAt(ranks, starts, shares, |ranks|, k + 1);
  }

  lemma ListedLength(ranks: seq<int>, starts: seq<int>, sends: seq<Sends>, shares: seq<seq<Contribution>>, me: int)
    requires Senders(ranks, starts, sends, shares, me, |sends|)
    ensures |starts| == |ranks| + 1 && |Listed(ranks, shares, |ranks|)| == starts[|ranks|]
  {
    RecvLength(ranks, starts, shares, |ranks|);
  }

  lemma {:induction false} RecvLength(ranks: seq<int>, starts: seq<int>, shares: seq<seq<Contribution>>, n: nat)
    requires n <= |ranks| && n < |starts| && RecvStarts(ranks, starts, shares, n)
    ensures |Listed(ranks, shares, n)| == starts[n]
  {
    if n > 0 { RecvLength(ranks, starts, shares, n - 1); }
  }

  lemma {:induction false} RecvStartsAt(ranks: seq<int>, starts: seq<int>, shares: seq<seq<Contribution>>, n: nat,
                                        k: nat)
    requires k <= n <= |ranks| && n < |starts| && RecvStarts(ranks, starts, shares, n)
    ensures starts[0] == 0 && (k > 0 ==> starts[k] == starts[k - 1] + |Share(shares, ranks[k - 1])|)
    decreases n
  {
    if n > 0 { RecvStartsAt(ranks, starts, shares, n - 1, if k < n then k else n - 1); }
  }

  /** The received contributions are added to the part. */
  method Absorb(v: VectorPart, recv: seq<Contribution>)
    requires forall k :: 0 <= k < |recv| ==> v.Owns(recv[k].index)
    modifies v.data
    ensures forall j :: 0 <= j < v.data.Length ==> v.data[j] == old(v.data[j]) + SumAt(recv, v.vec_start + j)
  {
    assert forall g :: SumTo(recv, 0, g) == 0.0;
    for i := 0 to |recv|
      invariant forall j :: 0 <= j < v.data.Length ==> v.data[j] == old(v.data[j]) + SumTo(recv, i, v.vec_start + j)
    {
      var j := recv[i].index - v.vec_start;
      v.data[j] := v.data[j] + recv[i].value;
    }
  }

  /** All that is stashed for component g, on the first n ranks. */
  ghost function StashedFor(stashes: seq<seq<Contribution>>, g: int, n: nat): real
    requires n <= |stashes|
  {
    if n == 0 then 0.0 else StashedFor(stashes, g, n - 1) + SumAt(stashes[n - 1], g)
  }

  /** What is gathered for a rank is, component by component, all that was stashed. */
  lemma {:induction false} GatheredSum(stashes: seq<seq<Contribution>>, part: seq<int>, me: nat, g: int, n: nat)
    requires me < |part| - 1 && part[me] <= g < part[me + 1] && n <= |stashes|
    ensures SumAt(Gather(Shares(stashes, part, me), n), g) == StashedFor(stashes, g, n)
  {
    if n > 0 {
      var shares, cs := Shares(stashes, part, me), stashes[n - 1];
      GatheredSum(stashes, part, me, g, n - 1);
      SumAtConcat(Gather(shares, n - 1), shares[n - 1], g);
      ForRankSum(cs, |cs|, part, me, g);
    }
  }

  lemma {:induction false} GatheredOwned(recv: seq<Contribution>, stashes: seq<seq<Contribution>>, part: seq<int>,
                                         me: nat, n: nat)
    requires me < |part| - 1 && n <= |stashes| && recv == Gather(Shares(stashes, part, me), n)
    ensures forall k :: 0 <= k < |recv| ==> part[me] <= recv[k].index < part[me + 1]
    decreases n
  {
    if n > 0 {
      GatheredOwned(Gather(Shares(stashes, part, me), n - 1), stashes, part, me, n - 1);
      ForRankOwned(stashes[n - 1], |stashes[n - 1]|, part, me);
    }
  }

  /** All messages for rank me, in the order of the senders. */
  method RecvAll(me: nat, sends: seq<Sends>, ghost stashes: seq<seq<Contribution>>, ghost part: seq<int>)
    returns (recv: seq<Contribution>)
    requires AllSort(sends, stashes, part) && me < |part| - 1
    ensures recv == Gather(Shares(stashes, part, me), |stashes|)
    ensures forall k :: 0 <= k < |recv| ==> part[me] <= recv[k].index < part[me + 1]
  {
    ghost var shares := Shares(stashes, part, me);
    var ranks, starts := RecvList(me, sends, stashes, part);
    recv := Transfer(me, sends, ranks, starts, stashes, part, shares);
    ListedIsGather(ranks, shares);
    GatheredOwned(recv, stashes, part, me, |stashes|);
  }

  /** Each of the first n components, the first of which is component `start`, has grown by exactly what all
      ranks had stashed for it. */
  ghost predicate Grown(before: seq<real>, after: seq<real>, stashes: seq<seq<Contribution>>, start: int, n: nat)
    requires n <= |before| && n <= |after|
  {
    n == 0 ||
    (&& Grown(before, after, stashes, start, n - 1)
     && after[n - 1] == before[n - 1] + StashedFor(stashes, start + (n - 1), |stashes|))
  }

  lemma {:induction false} GrownAt(before: seq<real>, after: seq<real>, stashes: seq<seq<Contribution>>, start: int,
                                   n: nat, g: int)
    requires n <= |before| && n <= |after| && Grown(before, after, stashes, start, n) && start <= g < start + n
    ensures after[g - start] == before[g - start] + StashedFor(stashes, g, |stashes|)
  {
    if g < start + n - 1 { GrownAt(before, after, stashes, start, n - 1, g); }
  }

  lemma {:induction false} GatheredGrows(before: seq<real>, after: seq<real>, recv: seq<Contribution>,
                                         stashes: seq<seq<Contribution>>, part: seq<int>, me: nat, n: nat)
    requires me < |part| - 1 && recv == Gather(Shares(stashes, part, me), |stashes|)
    requires n <= |before| == |after| && part[me] + n <= part[me + 1]
    requires forall j :: 0 <= j < n ==> after[j] == before[j] + SumAt(recv, part[me] + j)
    ensures Grown(before, after, stashes, part[me], n)
  {
    if n > 0 {
      GatheredSum(stashes, part, me, part[me] + (n - 1), |stashes|);
      GatheredGrows(before, after, recv, stashes, part, me, n - 1);
    }
  }

  method AbsorbAll(ghost me: nat, recv: seq<Contribution>, ghost stashes: seq<seq<Contribution>>, ghost part: seq<int>,
                   v: VectorPart)
    requires me < |part| - 1 && recv == Gather(Shares(stashes, part, me), |stashes|)
    requires forall k :: 0 <= k < |recv| ==> part[me] <= recv[k].index < part[me + 1]
    requires v.vec_start == part[me] && v.data.Length == part[me + 1] - part[me]
    modifies v.data
    ensures Grown(old(v.data[..]), v.data[..], stashes, part[me], v.data.Length)
  {
    ghost var before := v.data[..];
    Absorb(v, recv);
    GatheredGrows(before, v.data[..], recv, stashes, part, me, v.data.Length);
  }

  /** The exchange as rank me sees it: nothing is lost, duplicated or misrouted, each of its components grows
      by exactly what all ranks had stashed for it. */
  method Receive(me: nat, sends: seq<Sends>, ghost stashes: seq<seq<Contribution>>, ghost part: seq<int>, v: VectorPart)
    requires AllSort(sends, stashes, part) && me < |part| - 1
    requires v.vec_start == part[me] && v.data.Length == part[me + 1] - part[me]
    modifies v.data
    ensures Grown(old(v.data[..]), v.data[..], stashes, part[me], v.data.Length)
  {
    var recv := RecvAll(me, sends, stashes, part);
    AbsorbAll(me, recv, stashes, part, v);
  }
}
