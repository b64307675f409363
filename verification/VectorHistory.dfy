module VectorHistory {
  // Setting and adding values to a vector on many ranks: the calls, the exchange, and what the components are
  // worth then.

  import opened Partitions
  import opened VectorParts
  import opened VectorExchange

  /** A rank before the exchange: where its part starts, its values, its stash. */
  datatype RankState = RankState(start: int, data: seq<real>, stash: seq<Contribution>)

  /** What the rank knows about component g: its value if the rank owns it, and what is stashed for it. */
  ghost function Known(r: RankState, g: int): real {
    (if r.start <= g < r.start + |r.data| then r.data[g - r.start] else 0.0) + SumAt(r.stash, g)
  }

  /** All that the first n ranks know about component g. */
  ghost function Total(rs: seq<RankState>, g: int, n: nat): real
    requires n <= |rs|
  {
    if n == 0 then 0.0 else Total(rs, g, n - 1) + Known(rs[n - 1], g)
  }

  /** Every rank's part is where the partition says. */
  ghost predicate Matches(rs: seq<RankState>, part: seq<int>) {
    |part| == |rs| + 1 && forall p :: 0 <= p < |rs| ==> rs[p].start == part[p] && |rs[p].data| == part[p + 1] - part[p]
  }

  ghost function Stashes(rs: seq<RankState>): (r: seq<seq<Contribution>>)
    ensures |r| == |rs| && forall s :: 0 <= s < |rs| ==> r[s] == rs[s].stash
  {
    seq(|rs|, s requires 0 <= s < |rs| => rs[s].stash)
  }

  /** What the owner holds after the exchange is all that any rank knew before it. */
  lemma {:induction false} Conservation(rs: seq<RankState>, part: seq<int>, owner: nat, g: int, n: nat)
    requires IsPartition(part) && Matches(rs, part) && n <= |rs|
    requires owner < |rs| && part[owner] <= g < part[owner + 1]
    ensures Total(rs, g, n)
      == (if owner < n then rs[owner].data[g - part[owner]] else 0.0) + StashedFor(Stashes(rs), g, n)
  {
    if n > 0 {
      Conservation(rs, part, owner, g, n - 1);
      var p := n - 1;
      assert p < owner ==> part[p + 1] <= part[owner];
      assert owner < p ==> part[owner + 1] <= part[p];
    }
  }

  /** After the exchange the owner of component g holds the total of what all ranks knew about it: its own
      value and every stashed contribution, wherever it was stashed. */
  lemma OwnerHoldsTotal(rs: seq<RankState>, part: seq<int>, owner: nat, after: seq<real>, g: int)
    requires IsPartition(part) && Matches(rs, part) && owner < |rs| && part[owner] <= g < part[owner + 1]
    requires |after| == |rs[owner].data| && Grown(rs[owner].data, after, Stashes(rs), part[owner], |after|)
    ensures after[g - part[owner]] == Total(rs, g, |rs|)
  {
    assert |rs[owner].data| == part[owner + 1] - part[owner];
    Conservation(rs, part, owner, g, |rs|);
    GrownAt(rs[owner].data, after, Stashes(rs), part[owner], |after|, g);
  }

  // ------------------------------------------------------------------ from the calls to the components

  /** One call of hypre_IJVectorAddToValuesPar or, with add = false, of hypre_IJVectorSetValuesPar. */
  datatype VectorCall = VectorCall(add: bool, indices: seq<int>, values: seq<real>)
  {
    ghost predicate Valid(part: seq<int>) {
      |indices| <= |values| && (add ==> InRange(Contents(), part))
    }

    ghost function Contents(): seq<Contribution>
      requires |indices| <= |values|
    {
      Contributions(indices, values, |indices|)
    }
  }

  ghost predicate ValidCalls(calls: seq<VectorCall>, part: seq<int>) {
    forall k :: 0 <= k < |calls| ==> calls[k].Valid(part)
  }

  /** A rank after its first n calls; one that owns nothing forgets the values. */
  ghost function AfterCalls(r: RankState, calls: seq<VectorCall>, part: seq<int>, n: nat): (s: RankState)
    requires ValidCalls(calls, part) && n <= |calls|
    ensures s.start == r.start && |s.data| == |r.data|
  {
    if n == 0 then r else AfterCall(AfterCalls(r, calls, part, n - 1), calls[n - 1].add, calls[n - 1].Contents())
  }

  ghost function AfterCall(r: RankState, add: bool, cs: seq<Contribution>): (s: RankState)
    ensures s.start == r.start && |s.data| == |r.data|
  {
    if |r.data| == 0 then r
    else if add then
      RankState(r.start, Added(r.data, cs, |cs|, r.start), r.stash + Foreign(cs, |cs|, r.start, |r.data|))
    else
      RankState(r.start, Assigned(r.data, cs, |cs|, r.start), Unstashed(r.stash, cs, |cs|, r.start, |r.data|))
  }

  /** Before it sends, a rank removes what has been cancelled. */
  ghost function Compacted(r: RankState): RankState { RankState(r.start, r.data, Live(r.stash, |r.stash|)) }

  /** A rank after all its calls, when it sends. */
  ghost function Ready(r: RankState, calls: seq<VectorCall>, part: seq<int>): (s: RankState)
    requires ValidCalls(calls, part)
    ensures s.start == r.start && |s.data| == |r.data|
  {
    Compacted(AfterCalls(r, calls, part, |calls|))
  }

  ghost predicate OwnsIndex(r: RankState, g: int) { r.start <= g < r.start + |r.data| }

  /** A rank's share in component g, x before its calls: what a call adds is added to it; on the owner a Set replaces
      it by the last value given; anywhere else a Set erases it, for the value has to be set by the owner. */
  ghost function Share(x: real, owned: bool, calls: seq<VectorCall>, part: seq<int>, n: nat, g: int): real
    requires ValidCalls(calls, part) && n <= |calls|
  {
    if n == 0 then x
    else
      var y, cs := Share(x, owned, calls, part, n - 1, g), calls[n - 1].Contents();
      if calls[n - 1].add then y + SumAt(cs, g)
      else if !Names(cs, |cs|, g) then y
      else if owned then LastAt(cs, |cs|, g) else 0.0
  }

  /** One call. */
  lemma CallShare(s: RankState, add: bool, cs: seq<Contribution>, g: int)
    requires g != -1 && |s.data| > 0
    ensures Known(AfterCall(s, add, cs), g)
      == if add then Known(s, g) + SumAt(cs, g)
         else if !Names(cs, |cs|, g) then Known(s, g)
         else if OwnsIndex(s, g) then LastAt(cs, |cs|, g) + SumAt(s.stash, g) else 0.0
  {
    hide Added, Foreign, SumTo, Assigned, Unstashed, Names, LastAt;
    if add {
      NothingLost(s.data, cs, |cs|, s.start, g);
      SumAtConcat(s.stash, Foreign(cs, |cs|, s.start, |s.data|), g);
    } else {
      UnstashedSum(s.stash, cs, |cs|, s.start, |s.data|, g);
      if OwnsIndex(s, g) { AssignedAt(s.data, cs, |cs|, s.start, g); }
    }
  }

  /** What a rank knows about a component is its share; nothing is stashed for a component it owns. */
  lemma {:induction false} CallsShare(r: RankState, calls: seq<VectorCall>, part: seq<int>, n: nat, g: int)
    requires ValidCalls(calls, part) && n <= |calls| && g != -1 && SumAt(r.stash, g) == 0.0
    ensures Known(AfterCalls(r, calls, part, n), g)
      == if |r.data| == 0 then 0.0
         else Share(if OwnsIndex(r, g) then r.data[g - r.start] else 0.0, OwnsIndex(r, g), calls, part, n, g)
    ensures OwnsIndex(r, g) ==> SumAt(AfterCalls(r, calls, part, n).stash, g) == 0.0
  {
    hide AfterCall, SumTo, InRange, Names, LastAt;
    if n > 0 {
      CallsShare(r, calls, part, n - 1, g);
      var s, c := AfterCalls(r, calls, part, n - 1), calls[n - 1];
      if |r.data| > 0 {
        CallShare(s, c.add, c.Contents(), g);
        if OwnsIndex(r, g) { OwnStash(s, c.add, c.Contents(), g); }
      } else {
        OwnsNothing(s, c.add, c.Contents());
      }
    }
  }

  lemma OwnsNothing(s: RankState, add: bool, cs: seq<Contribution>)
    requires |s.data| == 0
    ensures AfterCall(s, add, cs) == s
  {}

  lemma OwnStash(s: RankState, add: bool, cs: seq<Contribution>, g: int)
    requires OwnsIndex(s, g) && g != -1 && SumAt(s.stash, g) == 0.0
    ensures SumAt(AfterCall(s, add, cs).stash, g) == 0.0
  {
    if add {
      SumAtConcat(s.stash, Foreign(cs, |cs|, s.start, |s.data|), g);
      ForeignSum(cs, |cs|, s.start, |s.data|, g);
    } else {
      UnstashedSum(s.stash, cs, |cs|, s.start, |s.data|, g);
    }
  }

  lemma {:induction false} ForeignSum(cs: seq<Contribution>, n: nat, lo: int, size: nat, g: int)
    requires n <= |cs| && lo <= g < lo + size
    ensures SumAt(Foreign(cs, n, lo, size), g) == 0.0
  {
    if n > 0 {
      ForeignSum(cs, n - 1, lo, size, g);
      SumAtSnoc(Foreign(cs, n - 1, lo, size), cs[n - 1], g);
      var before := Foreign(cs, n - 1, lo, size);
      assert before + [] == before;
    }
  }

  // ------------------------------------------------------------------ what a rank sends

  /** Each stashed contribution is for somebody, or cancelled. */
  ghost predicate InRangeOrCancelled(cs: seq<Contribution>, part: seq<int>) {
    |part| >= 1 && forall k :: 0 <= k < |cs| ==> cs[k].index == -1 || part[0] <= cs[k].index < part[|part| - 1]
  }

  lemma {:induction false} UnstashedInRange(stash: seq<Contribution>, cs: seq<Contribution>, n: nat, lo: int, size: nat,
                                            part: seq<int>)
    requires n <= |cs| && InRangeOrCancelled(stash, part)
    ensures InRangeOrCancelled(Unstashed(stash, cs, n, lo, size), part)
  {
    if n > 0 { UnstashedInRange(stash, cs, n - 1, lo, size, part); }
  }

  lemma {:induction false} StashInRange(r: RankState, calls: seq<VectorCall>, part: seq<int>, n: nat)
    requires ValidCalls(calls, part) && n <= |calls| && |part| >= 1 && r.stash == []
    ensures InRangeOrCancelled(AfterCalls(r, calls, part, n).stash, part)
  {
    if n > 0 {
      StashInRange(r, calls, part, n - 1);
      var s, c := AfterCalls(r, calls, part, n - 1), calls[n - 1];
      var cs := c.Contents();
      UnstashedInRange(s.stash, cs, |cs|, s.start, |s.data|, part);
      var more := Foreign(cs, |cs|, s.start, |s.data|);
      forall k | 0 <= k < |more| && c.add ensures part[0] <= more[k].index < part[|part| - 1] {
        ForeignHas(cs, |cs|, s.start, |s.data|, more[k]);
      }
    }
  }

  lemma {:induction false} LiveInRange(cs: seq<Contribution>, n: nat, part: seq<int>)
    requires n <= |cs| && InRangeOrCancelled(cs, part)
    ensures InRange(Live(cs, n), part)
  {
    if n > 0 { LiveInRange(cs, n - 1, part); }
  }

  ghost predicate NoneCancelled(cs: seq<Contribution>) { forall k :: 0 <= k < |cs| ==> cs[k].index != -1 }

  lemma {:induction false} LiveSame(cs: seq<Contribution>, n: nat)
    requires n <= |cs| && NoneCancelled(cs)
    ensures Live(cs, n) == cs[..n]
  {
    if n > 0 { LiveSame(cs, n - 1); }
  }

  /** A rank's part as a value. */
  ghost function StateOf(v: VectorPart): RankState
    requires v.Valid()
    reads v, v.data, v.off_proc_i, v.off_proc_data
  {
    RankState(v.vec_start, v.data[..], v.Stash())
  }

  /** All calls of a rank, and what it then sends. */
  method RunAndSort(v: VectorPart, calls: seq<VectorCall>, part: seq<int>, ghost r: RankState) returns (sends: Sends)
    requires IsPartition(part) && part[0] >= 0 && ValidCalls(calls, part)
    requires v.Valid() && StateOf(v) == r && r.stash == [] && v.cancel_indx == 0
    modifies v, v.data, v.off_proc_i, v.off_proc_data
    ensures v.Valid() && StateOf(v) == Ready(r, calls, part)
    ensures Sorts(sends, Ready(r, calls, part).stash, part)
  {
    hide AfterCall, Sorts, Live;
    for k := 0 to |calls|
      invariant v.Valid() && StateOf(v) == AfterCalls(r, calls, part, k)
      invariant v.cancel_indx == 0 ==> NoneCancelled(v.Stash())
      invariant v.off_proc_i == old(v.off_proc_i) || fresh(v.off_proc_i)
      invariant v.off_proc_data == old(v.off_proc_data) || fresh(v.off_proc_data)
    {
      RunOne(v, calls[k], part);
    }
    ghost var stash := v.Stash();
    StashInRange(r, calls, part, |calls|);
    LiveInRange(stash, |stash|, part);
    if v.cancel_indx == 0 { LiveSame(stash, |stash|); }
    v.Compact();
    sends := SortStash(v.Stash(), part);
  }

  method RunOne(v: VectorPart, c: VectorCall, ghost part: seq<int>)
    requires v.Valid() && |part| >= 1 && part[0] >= 0 && c.Valid(part)
    modifies v, v.data, v.off_proc_i, v.off_proc_data
    ensures v.Valid() && StateOf(v) == AfterCall(old(StateOf(v)), c.add, c.Contents())
    ensures old(v.cancel_indx == 0 ==> NoneCancelled(v.Stash())) ==> v.cancel_indx == 0 ==> NoneCancelled(v.Stash())
    ensures v.off_proc_i == old(v.off_proc_i) || fresh(v.off_proc_i)
    ensures v.off_proc_data == old(v.off_proc_data) || fresh(v.off_proc_data)
  {
    ghost var stash, cs := v.Stash(), c.Contents();
    if c.add {
      var ok := v.AddTo(c.indices, c.values);
      assert NoneCancelled(cs);
      if NoneCancelled(stash) { ForeignNone(stash, cs, v.vec_start, v.data.Length); }
      assert stash + [] == stash;
    } else {
      var ok := v.SetTo(c.indices, c.values);
    }
  }

  lemma ForeignNone(stash: seq<Contribution>, cs: seq<Contribution>, lo: int, size: nat)
    requires NoneCancelled(stash) && NoneCancelled(cs)
    ensures NoneCancelled(stash + Foreign(cs, |cs|, lo, size))
  {
    var more := Foreign(cs, |cs|, lo, size);
    forall k | 0 <= k < |more| ensures more[k].index != -1 { ForeignHas(cs, |cs|, lo, size, more[k]); }
  }

  // ------------------------------------------------------------------ all ranks' calls

  ghost predicate AllCalls(calls: seq<seq<VectorCall>>, part: seq<int>) {
    forall s :: 0 <= s < |calls| ==> ValidCalls(calls[s], part)
  }

  /** All ranks after their calls. */
  ghost function AfterAll(rs: seq<RankState>, calls: seq<seq<VectorCall>>, part: seq<int>): (r: seq<RankState>)
    requires |calls| == |rs| && AllCalls(calls, part)
    ensures |r| == |rs| && forall s :: 0 <= s < |rs| ==> r[s] == Ready(rs[s], calls[s], part)
  {
    seq(|rs|, s requires 0 <= s < |rs| && |calls| == |rs| && AllCalls(calls, part) => Ready(rs[s], calls[s], part))
  }

  /** A rank's share in component g after its calls; one that owns nothing has none. */
  ghost function ShareOf(r: RankState, calls: seq<VectorCall>, part: seq<int>, g: int): real
    requires ValidCalls(calls, part)
  {
    if |r.data| == 0 then 0.0
    else Share(if OwnsIndex(r, g) then r.data[g - r.start] else 0.0, OwnsIndex(r, g), calls, part, |calls|, g)
  }

  /** The shares of the first n ranks in component g. */
  ghost function SumOfShares(rs: seq<RankState>, calls: seq<seq<VectorCall>>, part: seq<int>, n: nat, g: int): real
    requires n <= |rs| == |calls| && AllCalls(calls, part)
  {
    if n == 0 then 0.0 else SumOfShares(rs, calls, part, n - 1, g) + ShareOf(rs[n - 1], calls[n - 1], part, g)
  }

  lemma ReadyShare(r: RankState, calls: seq<VectorCall>, part: seq<int>, g: int)
    requires ValidCalls(calls, part) && g != -1 && r.stash == []
    ensures Known(Ready(r, calls, part), g) == ShareOf(r, calls, part, g)
  {
    CallsShare(r, calls, part, |calls|, g);
    var stash := AfterCalls(r, calls, part, |calls|).stash;
    LiveSum(stash, |stash|, g);
  }

  lemma {:induction false} TotalIsShares(rs: seq<RankState>, states: seq<RankState>, calls: seq<seq<VectorCall>>,
                                         part: seq<int>, n: nat, g: int)
    requires n <= |rs| == |calls| && AllCalls(calls, part) && states == AfterAll(rs, calls, part) && g != -1
    requires forall s :: 0 <= s < |rs| ==> rs[s].stash == []
    ensures Total(states, g, n) == SumOfShares(rs, calls, part, n, g)
  {
    hide Known, ShareOf, Ready, ValidCalls;
    if n > 0 {
      TotalIsShares(rs, states, calls, part, n - 1, g);
      ReadyShare(rs[n - 1], calls[n - 1], part, g);
    }
  }

  lemma AfterAllMatches(rs: seq<RankState>, calls: seq<seq<VectorCall>>, part: seq<int>, states: seq<RankState>)
    requires Matches(rs, part) && |calls| == |rs| && AllCalls(calls, part) && states == AfterAll(rs, calls, part)
    ensures Matches(states, part)
  {
    hide AllCalls, Ready;
    forall p | 0 <= p < |rs| ensures states[p].start == part[p] && |states[p].data| == part[p + 1] - part[p] {
      assert states[p].start == rs[p].start && |states[p].data| == |rs[p].data|;
    }
  }

  lemma MatchesAt(rs: seq<RankState>, part: seq<int>, s: nat)
    requires Matches(rs, part) && s < |rs|
    ensures |part| == |rs| + 1 && rs[s].start == part[s] && |rs[s].data| == part[s + 1] - part[s]
  {}

  /** From the calls to the components: after any calls of SetValues and AddToValues on any ranks, and the exchange,
      each component is the sum of the ranks' shares in it. */
  lemma ComponentTheorem(rs: seq<RankState>, calls: seq<seq<VectorCall>>, part: seq<int>, owner: nat,
                         states: seq<RankState>, after: seq<real>, g: int)
    requires IsPartition(part) && part[0] >= 0 && Matches(rs, part) && forall s :: 0 <= s < |rs| ==> rs[s].stash == []
    requires |calls| == |rs| && AllCalls(calls, part) && states == AfterAll(rs, calls, part)
    requires owner < |rs| && part[owner] <= g < part[owner + 1]
    requires |after| == |rs[owner].data| && Grown(states[owner].data, after, Stashes(states), part[owner], |after|)
    ensures after[g - part[owner]] == SumOfShares(rs, calls, part, |rs|, g)
  {
    hide Matches, Total, Grown, SumOfShares, StashedFor;
    AfterAllMatches(rs, calls, part, states);
    MatchesAt(rs, part, owner);
    assert part[0] <= part[owner];
    OwnerHoldsTotal(states, part, owner, after, g);
    TotalIsShares(rs, states, calls, part, |rs|, g);
  }

  // ------------------------------------------------------------------ all ranks

  /** The parts from rank `from` on are those of the states, and no two share their values. */
  ghost predicate AreParts(parts: seq<VectorPart>, states: seq<RankState>, from: nat)
    reads set v | v in parts :: v.data
  {
    && |parts| <= |states|
    && (forall s :: from <= s < |parts| ==>
      parts[s].vec_start == states[s].start && parts[s].data[..] == states[s].data)
    && forall s, t :: 0 <= s < t < |parts| ==> parts[s].data != parts[t].data
  }

  /** One rank from the start: its calls, and what it sends. */
  method RunRank(start: int, data: seq<real>, calls: seq<VectorCall>, part: seq<int>)
    returns (v: VectorPart, sends: Sends)
    requires IsPartition(part) && part[0] >= 0 && ValidCalls(calls, part)
    ensures fresh(v.data)
    ensures var s := Ready(RankState(start, data, []), calls, part);
      v.vec_start == s.start && v.data[..] == s.data && Sorts(sends, s.stash, part)
  {
    v := new VectorPart(start, data);
    sends := RunAndSort(v, calls, part, RankState(start, data, []));
  }

  /** All ranks make their calls. */
  method RunRanks(rs: seq<RankState>, calls: seq<seq<VectorCall>>, part: seq<int>)
    returns (parts: seq<VectorPart>, sends: seq<Sends>)
    requires IsPartition(part) && part[0] >= 0 && |calls| == |rs| && AllCalls(calls, part)
      && forall s :: 0 <= s < |rs| ==> rs[s].stash == []
    ensures |parts| == |rs| && AreParts(parts, AfterAll(rs, calls, part), 0) && forall v :: v in parts ==> fresh(v.data)
    ensures AllSort(sends, Stashes(AfterAll(rs, calls, part)), part)
  {
    hide Sorts, Ready, ValidCalls;
    parts, sends := [], [];
    ghost var states := AfterAll(rs, calls, part);
    for s := 0 to |rs|
      invariant |parts| == |sends| == s && AreParts(parts, states, 0) && forall v :: v in parts ==> fresh(v.data)
      invariant forall k :: 0 <= k < s ==> Sorts(sends[k], states[k].stash, part)
    {
      assert rs[s] == RankState(rs[s].start, rs[s].data, []);
      var v, send := RunRank(rs[s].start, rs[s].data, calls[s], part);
      parts, sends := parts + [v], sends + [send];
    }
  }

  /** The components of rank me are the sums of all ranks' shares in them. */
  ghost predicate HasAll(rs: seq<RankState>, calls: seq<seq<VectorCall>>, part: seq<int>, me: nat, after: seq<real>)
    requires |rs| == |calls| == |part| - 1 && AllCalls(calls, part) && me < |rs|
  {
    |after| == |rs[me].data| && forall j :: 0 <= j < |after| ==>
      after[j] == SumOfShares(rs, calls, part, |rs|, part[me] + j)
  }

  lemma ReceivedIsAll(rs: seq<RankState>, calls: seq<seq<VectorCall>>, part: seq<int>, me: nat, states: seq<RankState>,
                      after: seq<real>)
    requires IsPartition(part) && part[0] >= 0 && Matches(rs, part) && forall s :: 0 <= s < |rs| ==> rs[s].stash == []
    requires |calls| == |rs| && AllCalls(calls, part) && states == AfterAll(rs, calls, part) && me < |rs|
    requires |after| == |rs[me].data| && Grown(states[me].data, after, Stashes(states), part[me], |after|)
    ensures |part| == |rs| + 1 && HasAll(rs, calls, part, me, after)
  {
    hide Matches, AllCalls, SumOfShares, Grown;
    MatchesAt(rs, part, me);
    forall j | 0 <= j < |after| ensures after[j] == SumOfShares(rs, calls, part, |rs|, part[me] + j) {
      ComponentTheorem(rs, calls, part, me, states, after, part[me] + j);
    }
  }

  /** Rank me receives. */
  method ReceiveAt(parts: seq<VectorPart>, me: nat, sends: seq<Sends>, ghost states: seq<RankState>, part: seq<int>)
    returns (values: seq<real>)
    requires Matches(states, part) && |parts| == |states| && AllSort(sends, Stashes(states), part) && me < |parts|
    requires AreParts(parts, states, me)
    modifies parts[me].data
    ensures AreParts(parts, states, me + 1)
    ensures |values| == |states[me].data| && Grown(states[me].data, values, Stashes(states), part[me], |values|)
  {
    hide AllSort, Grown, Matches;
    MatchesAt(states, part, me);
    Receive(me, sends, Stashes(states), part, parts[me]);
    values := parts[me].data[..];
  }

  /** The whole system: all ranks make their calls of SetValues and AddToValues, and all receive.  Every component of
      every rank is then the sum of all ranks' shares in it. */
  method RunEverywhere(rs: seq<RankState>, calls: seq<seq<VectorCall>>, part: seq<int>) returns (after: seq<seq<real>>)
    requires IsPartition(part) && part[0] >= 0 && Matches(rs, part) && |calls| == |rs| && AllCalls(calls, part)
    requires forall s :: 0 <= s < |rs| ==> rs[s].stash == []
    ensures |after| == |rs| && forall me :: 0 <= me < |rs| ==> HasAll(rs, calls, part, me, after[me])
  {
    hide AllCalls, AllSort, HasAll, Grown, Matches;
    var parts, sends := RunRanks(rs, calls, part);
    ghost var states := AfterAll(rs, calls, part);
    AfterAllMatches(rs, calls, part, states);
    if |rs| > 0 { MatchesAt(rs, part, 0); }
    after := [];
    for me := 0 to |rs|
      invariant |after| == me && AreParts(parts, states, me)
      invariant forall k :: 0 <= k < me ==> HasAll(rs, calls, part, k, after[k])
    {
      var values := ReceiveAt(parts, me, sends, states, part);
      assert |states[me].data| == |rs[me].data|;
      ReceivedIsAll(rs, calls, part, me, states, values);
      after := after + [values];
    }
  }
}
